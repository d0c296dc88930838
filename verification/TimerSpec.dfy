// The hard timers of timer.c on values. Time is unbounded here: a pending timer
// is an entry with an absolute deadline, and the list is kept in deadline order.
// TimerList shows that the 32-bit skip list of the source computes the same.
module TimerSpec {
  import opened Common

  const HALF := 0x7FFF_FFFF   // RT_TICK_MAX / 2

  type Id = nat

  datatype Entry = Entry(id: Id, due: int)

  // ----- the sorted list -----

  ghost predicate Sorted(q: seq<Entry>) {
    forall i, j :: 0 <= i < j < |q| ==> q[i].due <= q[j].due
  }

  ghost predicate Distinct(q: seq<Entry>) {
    forall i, j :: 0 <= i < j < |q| ==> q[i].id != q[j].id
  }

  // A stable insertion: behind every entry due no later than e.
  function Insert(q: seq<Entry>, e: Entry): seq<Entry> {
    if q == [] || e.due < q[0].due then [e] + q else [q[0]] + Insert(q[1..], e)
  }

  function Without(q: seq<Entry>, id: Id): seq<Entry> {
    if q == [] then [] else if q[0].id == id then Without(q[1..], id) else [q[0]] + Without(q[1..], id)
  }

  ghost predicate Pending(q: seq<Entry>, id: Id) { exists x :: x in q && x.id == id }

  // Length of the leading run of entries due no later than due.
  function CountLe(q: seq<Entry>, due: int): (n: nat)
    ensures n <= |q|
  {
    if q == [] || due < q[0].due then 0 else 1 + CountLe(q[1..], due)
  }

  lemma {:induction false} CountLeSplits(q: seq<Entry>, due: int)
    ensures var n := CountLe(q, due);
            (forall i :: 0 <= i < n ==> q[i].due <= due) && (n < |q| ==> due < q[n].due)
  {
    if q != [] && q[0].due <= due {
      CountLeSplits(q[1..], due);
      assert forall i :: 0 < i < |q| ==> q[i] == q[1..][i - 1];
    }
  }

  function Put(q: seq<Entry>, p: nat, e: Entry): seq<Entry>
    requires p <= |q|
  {
    q[..p] + [e] + q[p..]
  }

  lemma {:induction false} InsertIsPut(q: seq<Entry>, e: Entry)
    ensures Insert(q, e) == Put(q, CountLe(q, e.due), e)
  {
    if q != [] && q[0].due <= e.due {
      InsertIsPut(q[1..], e);
      var n := CountLe(q[1..], e.due);
      assert q[..1 + n] == [q[0]] + q[1..][..n];
      assert q[1 + n..] == q[1..][n..];
    }
  }

  lemma PutAt(q: seq<Entry>, p: nat, e: Entry, i: nat)
    requires p <= |q| && i <= |q|
    ensures |Put(q, p, e)| == |q| + 1 && Put(q, p, e)[i] == if i < p then q[i] else if i == p then e else q[i - 1]
  {
  }

  ghost predicate LastOfEquals(r: seq<Entry>, p: nat, due: int) {
    forall i :: p < i < |r| ==> r[i].due != due
  }

  lemma PutSorted(q: seq<Entry>, e: Entry)
    requires Sorted(q)
    ensures var n := CountLe(q, e.due); Sorted(Put(q, n, e)) && LastOfEquals(Put(q, n, e), n, e.due)
  {
    var n := CountLe(q, e.due);
    CountLeSplits(q, e.due);
    forall i, j | 0 <= i < j < |q| + 1 ensures Put(q, n, e)[i].due <= Put(q, n, e)[j].due {
      PutAt(q, n, e, i);
      PutAt(q, n, e, j);
    }
    forall i | n < i < |q| + 1 ensures Put(q, n, e)[i].due != e.due { PutAt(q, n, e, i); }
  }

  // The place where Insert puts e is the only one that keeps the list sorted and
  // lets entries already there with the same deadline go first.
  lemma InsertIsStable(q: seq<Entry>, e: Entry, p: nat)
    requires Sorted(q) && p <= |q|
    ensures Insert(q, e) == Put(q, CountLe(q, e.due), e)
    ensures p == CountLe(q, e.due) <==> Sorted(Put(q, p, e)) && LastOfEquals(Put(q, p, e), p, e.due)
  {
    var n := CountLe(q, e.due);
    InsertIsPut(q, e);
    if p == n {
      PutSorted(q, e);
    } else {
      CountLeSplits(q, e.due);
      PutAt(q, p, e, p);
      PutAt(q, p, e, n);
    }
  }

  // ----- timers -----

  datatype Timer = Timer(init: nat, periodic: bool, active: bool)

  datatype State = State(now: int, pending: seq<Entry>, timers: map<Id, Timer>)

  function SetActive(s: State, id: Id, active: bool): map<Id, Timer>
    requires id in s.timers
  {
    s.timers[id := s.timers[id].(active := active)]
  }

  function Start(s: State, id: Id): State
    requires id in s.timers
  {
    s.(pending := Insert(Without(s.pending, id), Entry(id, s.now + s.timers[id].init)), timers := SetActive(s, id, true))
  }

  // The flag says whether rt_timer_stop succeeds.
  function Stop(s: State, id: Id): (State, bool)
    requires id in s.timers
  {
    if !s.timers[id].active then (s, false)
    else (s.(pending := Without(s.pending, id), timers := SetActive(s, id, false)), true)
  }

  // One round of rt_timer_check: the head is due; its callback stops its own timer
  // iff the timer is in stops.
  function Fire(s: State, stops: set<Id>): State
    requires s.pending != [] && s.pending[0].id in s.timers
  {
    var (id, rest) := (s.pending[0].id, s.(pending := s.pending[1..]));
    var t := s.timers[id];
    if t.periodic && t.active && id !in stops then
      State(s.now, Insert(rest.pending, Entry(id, s.now + t.init)), SetActive(s, id, true))
    else rest.(timers := SetActive(s, id, false))
  }

  // ----- the list operations -----

  lemma ConsSorted(e: Entry, r: seq<Entry>)
    ensures Sorted([e] + r) <==> Sorted(r) && forall x :: x in r ==> e.due <= x.due
  {
    var s := [e] + r;
    assert forall i :: 0 <= i < |r| ==> s[i + 1] == r[i];
    if Sorted(s) {
      forall i, j | 0 <= i < j < |r| ensures r[i].due <= r[j].due { assert s[i + 1].due <= s[j + 1].due; }
      forall x | x in r ensures e.due <= x.due { var i :| 0 <= i < |r| && r[i] == x; assert s[0].due <= s[i + 1].due; }
    }
    if Sorted(r) && forall x :: x in r ==> e.due <= x.due {
      forall i, j | 0 <= i < j < |s| ensures s[i].due <= s[j].due { assert s[j] == r[j - 1] && r[j - 1] in r; }
    }
  }

  lemma ConsDistinct(e: Entry, r: seq<Entry>)
    ensures Distinct([e] + r) <==> Distinct(r) && forall x :: x in r ==> e.id != x.id
  {
    var s := [e] + r;
    assert forall i :: 0 <= i < |r| ==> s[i + 1] == r[i];
    if Distinct(s) {
      forall i, j | 0 <= i < j < |r| ensures r[i].id != r[j].id { assert s[i + 1].id != s[j + 1].id; }
      forall x | x in r ensures e.id != x.id { var i :| 0 <= i < |r| && r[i] == x; assert s[0].id != s[i + 1].id; }
    }
    if Distinct(r) && forall x :: x in r ==> e.id != x.id {
      forall i, j | 0 <= i < j < |s| ensures s[i].id != s[j].id { assert s[j] == r[j - 1] && r[j - 1] in r; }
    }
  }

  lemma Cons(e: Entry, r: seq<Entry>)
    ensures Sorted([e] + r) <==> Sorted(r) && forall x :: x in r ==> e.due <= x.due
    ensures Distinct([e] + r) <==> Distinct(r) && forall x :: x in r ==> e.id != x.id
  {
    ConsSorted(e, r);
    ConsDistinct(e, r);
  }

  lemma Tail(q: seq<Entry>)
    requires q != []
    ensures Sorted(q) <==> Sorted(q[1..]) && forall x :: x in q[1..] ==> q[0].due <= x.due
    ensures Distinct(q) <==> Distinct(q[1..]) && forall x :: x in q[1..] ==> q[0].id != x.id
    ensures forall x :: x in q <==> x == q[0] || x in q[1..]
  {
    Cons(q[0], q[1..]);
    assert q == [q[0]] + q[1..];
  }

  lemma {:induction false} InsertMembers(q: seq<Entry>, e: Entry)
    ensures forall x :: x in Insert(q, e) <==> x == e || x in q
  {
    if q != [] && q[0].due <= e.due { InsertMembers(q[1..], e); }
  }

  lemma {:induction false} InsertOk(q: seq<Entry>, e: Entry)
    requires Sorted(q) && Distinct(q) && !Pending(q, e.id)
    ensures Sorted(Insert(q, e)) && Distinct(Insert(q, e))
  {
    InsertMembers(q, e);
    if q == [] {
    } else if e.due < q[0].due {
      Tail(q);
      Cons(e, q);
    } else {
      Tail(q);
      InsertOk(q[1..], e);
      InsertMembers(q[1..], e);
      Cons(q[0], Insert(q[1..], e));
    }
  }

  lemma {:induction false} WithoutOk(q: seq<Entry>, id: Id)
    requires Sorted(q) && Distinct(q)
    ensures Sorted(Without(q, id)) && Distinct(Without(q, id))
    ensures forall x :: x in Without(q, id) <==> x in q && x.id != id
  {
    if q != [] {
      Tail(q);
      WithoutOk(q[1..], id);
      Cons(q[0], Without(q[1..], id));
    }
  }

  lemma {:induction false} WithoutNothing(q: seq<Entry>, id: Id)
    requires !Pending(q, id)
    ensures Without(q, id) == q
  {
    if q != [] {
      assert q[0] in q;
      WithoutNothing(q[1..], id);
    }
  }

  // ----- each operation keeps the timers valid -----

  ghost predicate Window(s: State, lag: nat) {
    forall x :: x in s.pending ==> s.now - lag <= x.due < s.now + HALF
  }

  // rt_timer_start asserts init < HALF; a periodic timer must advance.
  predicate TimerOk(t: Timer) { t.init < HALF && (t.periodic ==> 0 < t.init) }

  // Deadlines lie at most lag ticks in the past and less than HALF in the future,
  // and exactly the active timers are pending.
  ghost predicate Valid(s: State, lag: nat) {
    && Sorted(s.pending) && Distinct(s.pending) && Window(s, lag)
    && (forall id :: id in s.timers ==> TimerOk(s.timers[id]))
    && (forall x :: x in s.pending ==> x.id in s.timers && s.timers[x.id].active)
    && forall id :: id in s.timers && s.timers[id].active ==> Pending(s.pending, id)
  }

  lemma StartKeepsValid(s: State, id: Id, lag: nat)
    requires Valid(s, lag) && id in s.timers
    ensures Valid(Start(s, id), lag)
  {
    var (q, e) := (Without(s.pending, id), Entry(id, s.now + s.timers[id].init));
    WithoutOk(s.pending, id);
    InsertOk(q, e);
    InsertMembers(q, e);
    var r := Start(s, id);
    forall k | k in r.timers && r.timers[k].active ensures Pending(r.pending, k) {
      if k != id {
        var x :| x in s.pending && x.id == k;
        assert x in r.pending;
      } else {
        assert e in r.pending;
      }
    }
  }

  lemma StopKeepsValid(s: State, id: Id, lag: nat)
    requires Valid(s, lag) && id in s.timers
    ensures Valid(Stop(s, id).0, lag)
    ensures Stop(s, id).1 <==> Pending(s.pending, id)
    ensures !Pending(Stop(s, id).0.pending, id)
  {
    WithoutOk(s.pending, id);
    var r := Stop(s, id).0;
    forall k | k in r.timers && r.timers[k].active ensures Pending(r.pending, k) {
      var x :| x in s.pending && x.id == k;
      assert x in r.pending;
    }
  }

  // Firing is stopping the head and, for a periodic timer, starting it again.
  lemma FireIs(s: State, stops: set<Id>)
    requires s.pending != [] && !Pending(s.pending[1..], s.pending[0].id)
    requires s.pending[0].id in s.timers && s.timers[s.pending[0].id].active
    ensures var id := s.pending[0].id;
            var r := Stop(s, id).0;
            id in r.timers && Fire(s, stops) == if s.timers[id].periodic && id !in stops then Start(r, id) else r
  {
    var (id, rest) := (s.pending[0].id, s.pending[1..]);
    WithoutNothing(rest, id);
    var r := s.(pending := rest, timers := SetActive(s, id, false));
    assert Stop(s, id).0 == r;
    assert Start(r, id).pending == Insert(rest, Entry(id, s.now + s.timers[id].init));
    assert SetActive(r, id, true) == SetActive(s, id, true);
  }

  lemma FireKeepsValid(s: State, stops: set<Id>, lag: nat)
    requires Valid(s, lag) && s.pending != []
    ensures s.pending[0].id in s.timers && Valid(Fire(s, stops), lag)
    ensures Fire(s, stops).now == s.now && Fire(s, stops).timers.Keys == s.timers.Keys
  {
    assert s.pending[0] in s.pending;
    Tail(s.pending);
    FireIs(s, stops);
    StopKeepsValid(s, s.pending[0].id, lag);
    StartKeepsValid(Stop(s, s.pending[0].id).0, s.pending[0].id, lag);
  }

  // ----- rt_timer_check -----

  // The leading entries that are due.
  function DueOf(q: seq<Entry>, now: int): seq<Entry> {
    if q == [] || now < q[0].due then [] else [q[0]] + DueOf(q[1..], now)
  }

  function Due(s: State): seq<Entry> { DueOf(s.pending, s.now) }

  // In a sorted list they are all the entries that are due.
  lemma {:induction false} DueMembers(q: seq<Entry>, now: int)
    requires Sorted(q)
    ensures forall x :: x in DueOf(q, now) <==> x in q && x.due <= now
    ensures Distinct(q) ==> Distinct(DueOf(q, now))
  {
    if q != [] {
      Tail(q);
      if q[0].due <= now {
        DueMembers(q[1..], now);
        Cons(q[0], DueOf(q[1..], now));
      }
    }
  }

  // Inserting a later entry does not disturb the due ones.
  lemma {:induction false} LaterInsert(q: seq<Entry>, e: Entry, now: int)
    requires now < e.due
    ensures DueOf(Insert(q, e), now) == DueOf(q, now)
  {
    if q != [] && q[0].due <= e.due { LaterInsert(q[1..], e, now); }
  }

  lemma FireReducesDue(s: State, stops: set<Id>)
    requires Due(s) != [] && s.pending[0].id in s.timers && TimerOk(s.timers[s.pending[0].id])
    ensures Due(s) == [s.pending[0]] + Due(Fire(s, stops))
  {
    var t := s.timers[s.pending[0].id];
    if t.periodic { LaterInsert(s.pending[1..], Entry(s.pending[0].id, s.now + t.init), s.now); }
  }

  // The whole of rt_timer_check, with the timers it fires in order.
  function Check(s: State, stops: set<Id>, ghost lag: nat): (r: (State, seq<Id>))
    requires Valid(s, lag)
    ensures Valid(r.0, lag)
    decreases |Due(s)|
  {
    if s.pending == [] || s.now < s.pending[0].due then (s, [])
    else
      FireKeepsValid(s, stops, lag);
      FireReducesDue(s, stops);
      var (r, fired) := Check(Fire(s, stops), stops, lag);
      (r, [s.pending[0].id] + fired)
  }

  function Ids(q: seq<Entry>): seq<Id> { if q == [] then [] else [q[0].id] + Ids(q[1..]) }

  // rt_timer_check fires exactly the due timers, once each and in list order, and
  // leaves none that is due.
  lemma {:induction false} CheckFiresDue(s: State, stops: set<Id>, lag: nat)
    requires Valid(s, lag)
    ensures var (r, fired) := Check(s, stops, lag);
            && fired == Ids(Due(s)) && r.now == s.now && r.timers.Keys == s.timers.Keys
            && forall x :: x in r.pending ==> s.now < x.due
    decreases |Due(s)|
  {
    if Due(s) != [] {
      FireKeepsValid(s, stops, lag);
      FireReducesDue(s, stops);
      CheckFiresDue(Fire(s, stops), stops, lag);
    } else {
      DueMembers(s.pending, s.now);
    }
  }

  predicate Again(s: State, stops: set<Id>, id: Id, x: Entry)
    requires id in s.timers
  {
    x == Entry(id, s.now + s.timers[id].init) && s.timers[id].periodic && id !in stops
  }

  // What one firing leaves: every entry but the head, and the head's timer again
  // if it is periodic and was not stopped.
  lemma FireMembers(s: State, stops: set<Id>, x: Entry)
    requires s.pending != [] && s.pending[0].id in s.timers && x.id in s.timers && s.timers[s.pending[0].id].active
    requires Distinct(s.pending)
    ensures var (r, head) := (Fire(s, stops), s.pending[0]);
            && x.id in r.timers && r.timers[x.id].periodic == s.timers[x.id].periodic && r.timers[x.id].init == s.timers[x.id].init
            && (x in r.pending <==> (x in s.pending && x != head) || Again(s, stops, head.id, x))
  {
    Tail(s.pending);
    InsertMembers(s.pending[1..], Entry(s.pending[0].id, s.now + s.timers[s.pending[0].id].init));
  }

  // What rt_timer_check leaves pending: the entries not yet due, and for every
  // periodic timer it fired and whose callback did not stop it, one period from now.
  lemma {:induction false} CheckLeaves(s: State, stops: set<Id>, lag: nat, x: Entry)
    requires Valid(s, lag) && x.id in s.timers
    ensures var r := Check(s, stops, lag).0;
            && x.id in r.timers && r.timers[x.id].periodic == s.timers[x.id].periodic && r.timers[x.id].init == s.timers[x.id].init
            && (x in r.pending <==> (x in s.pending && s.now < x.due) || Renewed(s, stops, x))
    decreases |Due(s)|
  {
    DueMembers(s.pending, s.now);
    if Due(s) != [] {
      FireKeepsValid(s, stops, lag);
      FireReducesDue(s, stops);
      var (r, head) := (Fire(s, stops), s.pending[0]);
      assert head in s.pending;
      FireMembers(s, stops, x);
      DueMembers(r.pending, r.now);
      CheckLeaves(r, stops, lag, x);
      RenewedStep(s, stops, x);
    }
  }

  ghost predicate Renewed(s: State, stops: set<Id>, x: Entry) {
    && x.id in s.timers && s.timers[x.id].periodic && x.id !in stops && x.due == s.now + s.timers[x.id].init
    && exists y :: y in Due(s) && y.id == x.id
  }

  lemma RenewedStep(s: State, stops: set<Id>, x: Entry)
    requires Due(s) != [] && s.pending[0].id in s.timers && TimerOk(s.timers[s.pending[0].id])
    requires x.id in s.timers
    ensures Renewed(s, stops, x) <==> Renewed(Fire(s, stops), stops, x) || Again(s, stops, s.pending[0].id, x)
  {
    FireReducesDue(s, stops);
    var rest := Due(Fire(s, stops));
    assert forall y :: y in Due(s) <==> y == s.pending[0] || y in rest;
    if x.id == s.pending[0].id { assert s.pending[0] in Due(s); }
  }

  // ----- runs -----

  // What can happen between two looks at the timers; a tick is rt_tick_increase
  // followed by rt_timer_check.
  datatype Op = OpStart(id: Id) | OpStop(id: Id) | OpTick(stops: set<Id>)

  datatype Firing = Firing(id: Id, at: int)

  function Tick(s: State, stops: set<Id>): (State, seq<Id>)
    requires Valid(s, 0)
  {
    Check(s.(now := s.now + 1), stops, 1)
  }

  lemma TickKeepsValid(s: State, stops: set<Id>)
    requires Valid(s, 0)
    ensures Valid(Tick(s, stops).0, 0) && Tick(s, stops).0.now == s.now + 1
    ensures Tick(s, stops).0.timers.Keys == s.timers.Keys
  {
    CheckFiresDue(s.(now := s.now + 1), stops, 1);
  }

  function Stamp(ids: seq<Id>, at: int): seq<Firing> {
    if ids == [] then [] else [Firing(ids[0], at)] + Stamp(ids[1..], at)
  }

  // Operations on timers that do not exist do nothing.
  function Step(s: State, op: Op): (r: (State, seq<Firing>))
    requires Valid(s, 0)
    ensures Valid(r.0, 0) && s.now <= r.0.now && r.0.timers.Keys == s.timers.Keys
  {
    match op
    case OpStart(id) => if id in s.timers then StartKeepsValid(s, id, 0); (Start(s, id), []) else (s, [])
    case OpStop(id) => if id in s.timers then StopKeepsValid(s, id, 0); (Stop(s, id).0, []) else (s, [])
    case OpTick(stops) =>
      TickKeepsValid(s, stops);
      var (t, ids) := Tick(s, stops);
      (t, Stamp(ids, t.now))
  }

  function Run(s: State, ops: seq<Op>): (r: (State, seq<Firing>))
    requires Valid(s, 0)
    ensures s.now <= r.0.now
    decreases |ops|
  {
    if ops == [] then (s, [])
    else
      var (t, fired) := Step(s, ops[0]);
      var (r, log) := Run(t, ops[1..]);
      (r, fired + log)
  }

  // The times at which id fires.
  function FiredAt(log: seq<Firing>, id: Id): seq<int> {
    if log == [] then [] else if log[0].id == id then [log[0].at] + FiredAt(log[1..], id) else FiredAt(log[1..], id)
  }

  lemma {:induction false} FiredAtAppend(a: seq<Firing>, b: seq<Firing>, id: Id)
    ensures FiredAt(a + b, id) == FiredAt(a, id) + FiredAt(b, id)
  {
    if a == [] {
      assert a + b == b;
    } else {
      assert (a + b)[0] == a[0] && (a + b)[1..] == a[1..] + b;
      FiredAtAppend(a[1..], b, id);
    }
  }

  lemma {:induction false} StampOnce(q: seq<Entry>, at: int, id: Id)
    requires Distinct(q)
    ensures FiredAt(Stamp(Ids(q), at), id) == if Pending(q, id) then [at] else []
  {
    if q != [] {
      Tail(q);
      StampOnce(q[1..], at, id);
      assert Stamp(Ids(q), at)[1..] == Stamp(Ids(q[1..]), at);
      if q[0].id == id {
        assert q[0] in q;
        assert !Pending(q[1..], id);
      } else if Pending(q[1..], id) {
        var x :| x in q[1..] && x.id == id;
        assert x in q;
      }
    }
  }

  predicate Touches(op: Op, id: Id) { (op.OpStart? || op.OpStop?) && op.id == id }

  ghost predicate Idle(s: State, id: Id) { id in s.timers && !s.timers[id].periodic && !Pending(s.pending, id) }

  ghost predicate Armed(s: State, e: Entry) {
    e in s.pending && e.id in s.timers && !s.timers[e.id].periodic
  }

  // The tick at which a pending timer is due for rt_timer_check: its deadline, or the
  // next tick if that is now.
  function Tock(s: State, e: Entry): int { if s.now < e.due then e.due else s.now + 1 }

  // rt_timer_check, seen from a one-shot timer: afterwards it pends iff it did and
  // was not due.
  lemma CheckOneShot(s: State, stops: set<Id>, lag: nat, id: Id)
    requires Valid(s, lag) && id in s.timers && !s.timers[id].periodic
    ensures var (r, ids) := Check(s, stops, lag);
            && id in r.timers && !r.timers[id].periodic
            && (forall x :: x in r.pending && x.id == id <==> x in s.pending && x.id == id && s.now < x.due)
            && FiredAt(Stamp(ids, s.now), id) == if Pending(Due(s), id) then [s.now] else []
  {
    var r := Check(s, stops, lag).0;
    CheckFiresDue(s, stops, lag);
    DueMembers(s.pending, s.now);
    StampOnce(Due(s), s.now, id);
    CheckLeaves(s, stops, lag, Entry(id, 0));
    forall x ensures x in r.pending && x.id == id <==> x in s.pending && x.id == id && s.now < x.due {
      if x.id == id { CheckLeaves(s, stops, lag, x); }
    }
  }

  lemma TickStaysIdle(s: State, stops: set<Id>, id: Id)
    requires Valid(s, 0) && Idle(s, id)
    ensures var (t, ids) := Tick(s, stops); Idle(t, id) && t.now == s.now + 1 && FiredAt(Stamp(ids, t.now), id) == []
  {
    TickKeepsValid(s, stops);
    CheckOneShot(s.(now := s.now + 1), stops, 1, id);
    DueMembers(s.pending, s.now + 1);
  }

  lemma OnlyEntry(q: seq<Entry>, e: Entry)
    requires Distinct(q) && e in q
    ensures forall x :: x in q && x.id == e.id ==> x == e
  {
    var i :| 0 <= i < |q| && q[i] == e;
    forall x | x in q && x.id == e.id ensures x == e {
      var j :| 0 <= j < |q| && q[j] == x;
    }
  }

  // One tick, seen from a pending one-shot timer.
  lemma TickMeets(s: State, stops: set<Id>, e: Entry)
    requires Valid(s, 0) && Armed(s, e)
    ensures var (t, ids) := Tick(s, stops);
            && t.now == s.now + 1
            && FiredAt(Stamp(ids, t.now), e.id) == (if t.now < e.due then [] else [t.now])
            && if t.now < e.due then Armed(t, e) else Idle(t, e.id)
  {
    TickKeepsValid(s, stops);
    CheckOneShot(s.(now := s.now + 1), stops, 1, e.id);
    DueMembers(s.pending, s.now + 1);
    OnlyEntry(s.pending, e);
    if e.due <= s.now + 1 { assert e in DueOf(s.pending, s.now + 1); }
  }

  lemma StartKeepsOther(s: State, k: Id, id: Id)
    requires Sorted(s.pending) && Distinct(s.pending) && k in s.timers && id in s.timers && k != id
    ensures var r := Start(s, k);
            r.timers[id] == s.timers[id] && forall x: Entry :: x.id == id ==> (x in r.pending <==> x in s.pending)
  {
    WithoutOk(s.pending, k);
    InsertMembers(Without(s.pending, k), Entry(k, s.now + s.timers[k].init));
  }

  lemma StopKeepsOther(s: State, k: Id, id: Id)
    requires Sorted(s.pending) && Distinct(s.pending) && k in s.timers && id in s.timers && k != id
    ensures var r := Stop(s, k).0;
            r.timers[id] == s.timers[id] && forall x: Entry :: x.id == id ==> (x in r.pending <==> x in s.pending)
  {
    WithoutOk(s.pending, k);
  }

  lemma StepStaysIdle(s: State, op: Op, id: Id)
    requires Valid(s, 0) && Idle(s, id) && !Touches(op, id)
    ensures Idle(Step(s, op).0, id) && FiredAt(Step(s, op).1, id) == []
  {
    match op
    case OpStart(k) => if k in s.timers { StartKeepsOther(s, k, id); }
    case OpStop(k) => if k in s.timers { StopKeepsOther(s, k, id); }
    case OpTick(stops) => TickStaysIdle(s, stops, id);
  }

  lemma StepMeets(s: State, op: Op, e: Entry)
    requires Valid(s, 0) && Armed(s, e) && !Touches(op, e.id)
    ensures var (t, log) := Step(s, op);
            && FiredAt(log, e.id) == (if t.now < Tock(s, e) then [] else [Tock(s, e)])
            && if t.now < Tock(s, e) then Armed(t, e) && Tock(t, e) == Tock(s, e) else Idle(t, e.id)
  {
    match op
    case OpStart(k) => if k in s.timers { StartKeepsOther(s, k, e.id); }
    case OpStop(k) => if k in s.timers { StopKeepsOther(s, k, e.id); }
    case OpTick(stops) => TickMeets(s, stops, e);
  }

  // A one-shot timer that does not pend stays silent until somebody starts it.
  lemma {:induction false} IdleStaysSilent(s: State, ops: seq<Op>, id: Id)
    requires Valid(s, 0) && Idle(s, id)
    requires forall i :: 0 <= i < |ops| ==> !Touches(ops[i], id)
    ensures FiredAt(Run(s, ops).1, id) == []
    decreases |ops|
  {
    if ops != [] {
      assert forall i :: 0 <= i < |ops[1..]| ==> ops[1..][i] == ops[i + 1];
      StepStaysIdle(s, ops[0], id);
      var (t, log) := Step(s, ops[0]);
      IdleStaysSilent(t, ops[1..], id);
      FiredAtAppend(log, Run(t, ops[1..]).1, id);
    }
  }

  // Whatever else happens, a pending one-shot timer that is neither stopped nor
  // restarted fires once, at its deadline, if the run gets that far.
  lemma {:induction false} OneShotFiresOnTime(s: State, ops: seq<Op>, e: Entry)
    requires Valid(s, 0) && Armed(s, e)
    requires forall i :: 0 <= i < |ops| ==> !Touches(ops[i], e.id)
    ensures var (r, log) := Run(s, ops);
            FiredAt(log, e.id) == if r.now < Tock(s, e) then [] else [Tock(s, e)]
    decreases |ops|
  {
    if ops != [] {
      assert forall i :: 0 <= i < |ops[1..]| ==> ops[1..][i] == ops[i + 1];
      StepMeets(s, ops[0], e);
      var (t, log) := Step(s, ops[0]);
      if t.now < Tock(s, e) { OneShotFiresOnTime(t, ops[1..], e); } else { IdleStaysSilent(t, ops[1..], e.id); }
      FiredAtAppend(log, Run(t, ops[1..]).1, e.id);
    }
  }

  // So a one-shot timer that is started fires exactly init ticks after its start, if
  // nobody stops or restarts it, and after one tick if init is 0.
  lemma StartedFiresOnTime(s: State, id: Id, ops: seq<Op>)
    requires Valid(s, 0) && id in s.timers && !s.timers[id].periodic
    requires forall i :: 0 <= i < |ops| ==> !Touches(ops[i], id)
    ensures Valid(Start(s, id), 0)
    ensures var (at, r) := (s.now + if s.timers[id].init == 0 then 1 else s.timers[id].init, Run(Start(s, id), ops));
            FiredAt(r.1, id) == if r.0.now < at then [] else [at]
  {
    hide Valid, Start, Armed, Run, FiredAt, Touches;
    StartKeepsValid(s, id, 0);
    StartArms(s, id);
    OneShotFiresOnTime(Start(s, id), ops, Entry(id, s.now + s.timers[id].init));
  }

  lemma StartArms(s: State, id: Id)
    requires id in s.timers && !s.timers[id].periodic
    ensures Armed(Start(s, id), Entry(id, s.now + s.timers[id].init)) && Start(s, id).now == s.now
  {
    InsertMembers(Without(s.pending, id), Entry(id, s.now + s.timers[id].init));
  }

  // ----- periodic timers -----

  ghost predicate Pulses(s: State, e: Entry, period: nat) {
    0 < period && e in s.pending && e.id in s.timers && s.timers[e.id].periodic && s.timers[e.id].init == period
  }

  // Nobody stops or restarts the timer, its own callback included.
  predicate LeavesAlone(op: Op, id: Id) { !Touches(op, id) && (op.OpTick? ==> id !in op.stops) }

  function Beats(first: int, period: nat, until: int): seq<int>
    requires 0 < period
    decreases until - first
  {
    if until < first then [] else [first] + Beats(first + period, period, until)
  }

  // rt_timer_check, seen from a periodic timer that pends: it keeps its deadline, or
  // fires and is due one period later.
  lemma CheckPeriodic(s: State, stops: set<Id>, lag: nat, e: Entry, period: nat)
    requires Valid(s, lag) && Pulses(s, e, period) && e.id !in stops
    ensures var (r, ids) := Check(s, stops, lag);
            && Pulses(r, if e.due <= s.now then Entry(e.id, s.now + period) else e, period)
            && FiredAt(Stamp(ids, s.now), e.id) == if e.due <= s.now then [s.now] else []
  {
    hide Fire, Stamp, FiredAt;
    var after := if e.due <= s.now then Entry(e.id, s.now + period) else e;
    CheckFiresDue(s, stops, lag);
    DueMembers(s.pending, s.now);
    OnlyEntry(s.pending, e);
    if e.due <= s.now { assert e in Due(s); }
    StampOnce(Due(s), s.now, e.id);
    CheckLeaves(s, stops, lag, after);
  }

  lemma StepPulses(s: State, op: Op, e: Entry, period: nat)
    requires Valid(s, 0) && Pulses(s, e, period) && LeavesAlone(op, e.id)
    ensures var (t, log) := Step(s, op);
            && t.now <= Tock(s, e)
            && FiredAt(log, e.id) == (if t.now < Tock(s, e) then [] else [t.now])
            && if t.now < Tock(s, e) then Pulses(t, e, period) && Tock(t, e) == Tock(s, e) else Pulses(t, Entry(e.id, t.now + period), period)
  {
    hide Check, Fire, Stamp;
    match op
    case OpStart(k) => if k in s.timers { StartKeepsOther(s, k, e.id); }
    case OpStop(k) => if k in s.timers { StopKeepsOther(s, k, e.id); }
    case OpTick(stops) =>
      TickKeepsValid(s, stops);
      CheckPeriodic(s.(now := s.now + 1), stops, 1, e, period);
  }

  // Whatever else happens, a periodic timer that is left alone fires at its deadline
  // and then once per period, as far as the run gets, and at no other tick.
  lemma {:induction false} PeriodicFiresOnTime(s: State, ops: seq<Op>, e: Entry, period: nat)
    requires Valid(s, 0) && Pulses(s, e, period)
    requires forall i :: 0 <= i < |ops| ==> LeavesAlone(ops[i], e.id)
    ensures var (r, log) := Run(s, ops);
            FiredAt(log, e.id) == Beats(Tock(s, e), period, r.now)
    decreases |ops|
  {
    hide Valid, Pulses, LeavesAlone, Step;
    if ops != [] {
      assert forall i :: 0 <= i < |ops[1..]| ==> ops[1..][i] == ops[i + 1];
      StepPulses(s, ops[0], e, period);
      var (t, log) := Step(s, ops[0]);
      PeriodicFiresOnTime(t, ops[1..], if t.now < Tock(s, e) then e else Entry(e.id, t.now + period), period);
      FiredAtAppend(log, Run(t, ops[1..]).1, e.id);
    }
  }

  // The kth of equal periods from a tick on ends.
  function Later(now: int, period: nat, k: nat): int { now + k * period }

  lemma {:induction false} BeatsAt(first: int, period: nat, until: int, k: nat)
    requires 0 < period
    ensures Later(first, period, k) <= until <==> k < |Beats(first, period, until)|
    ensures k < |Beats(first, period, until)| ==> Beats(first, period, until)[k] == Later(first, period, k)
    decreases k
  {
    if k == 0 {
    } else if first <= until {
      BeatsAt(first + period, period, until, k - 1);
      NextBeat(first, period, k - 1);
    } else {
      assert 0 <= k * period;
    }
  }

  // So after its start a periodic timer fires for the kth time exactly k times init
  // ticks later, for every k that the run reaches.
  lemma {:induction false} StartedFiresEveryPeriod(s: State, id: Id, ops: seq<Op>, k: nat)
    requires Valid(s, 0) && id in s.timers && s.timers[id].periodic
    requires forall i :: 0 <= i < |ops| ==> LeavesAlone(ops[i], id)
    ensures Valid(Start(s, id), 0)
    ensures var ((r, log), at) := (Run(Start(s, id), ops), Later(s.now, s.timers[id].init, k + 1));
            && (at <= r.now <==> k < |FiredAt(log, id)|)
            && (k < |FiredAt(log, id)| ==> FiredAt(log, id)[k] == at)
  {
    var period := s.timers[id].init;
    PeriodIsPositive(s, id, 0);
    StartKeepsValid(s, id, 0);
    StartPulses(s, id);
    hide Valid, Start, Pulses, Run, FiredAt, LeavesAlone, Later;
    FiresEveryPeriod(Start(s, id), id, period, ops, k);
  }

  lemma {:induction false} FiresEveryPeriod(s: State, id: Id, period: nat, ops: seq<Op>, k: nat)
    requires Valid(s, 0) && Pulses(s, Entry(id, s.now + period), period)
    requires forall i :: 0 <= i < |ops| ==> LeavesAlone(ops[i], id)
    ensures var (r, log) := Run(s, ops);
            && (Later(s.now, period, k + 1) <= r.now <==> k < |FiredAt(log, id)|)
            && (k < |FiredAt(log, id)| ==> FiredAt(log, id)[k] == Later(s.now, period, k + 1))
  {
    hide *;
    var e := Entry(id, s.now + period);
    PulsesIsPositive(s, e, period);
    PeriodicFiresOnTime(s, ops, e, period);
    FirstBeat(s, e);
    KthBeat(s.now, period, Run(s, ops).0.now, k);
  }

  lemma {:induction false} KthBeat(now: int, period: nat, until: int, k: nat)
    requires 0 < period
    ensures var beats := Beats(now + period, period, until);
      && (Later(now, period, k + 1) <= until <==> k < |beats|) && (k < |beats| ==> beats[k] == Later(now, period, k + 1))
  {
    hide Beats, Later;
    BeatsAt(now + period, period, until, k);
    NextBeat(now, period, k);
  }

  lemma PulsesIsPositive(s: State, e: Entry, period: nat)
    requires Pulses(s, e, period)
    ensures 0 < period
  {
  }

  lemma FirstBeat(s: State, e: Entry)
    requires s.now < e.due
    ensures Tock(s, e) == e.due
  {
  }

  lemma NextBeat(now: int, period: nat, k: nat)
    ensures Later(now + period, period, k) == Later(now, period, k + 1)
  {
  }

  lemma PeriodIsPositive(s: State, id: Id, lag: nat)
    requires Valid(s, lag) && id in s.timers && s.timers[id].periodic
    ensures 0 < s.timers[id].init
  {
  }

  lemma StartPulses(s: State, id: Id)
    requires id in s.timers && s.timers[id].periodic && 0 < s.timers[id].init
    ensures Pulses(Start(s, id), Entry(id, s.now + s.timers[id].init), s.timers[id].init) && Start(s, id).now == s.now
  {
    InsertMembers(Without(s.pending, id), Entry(id, s.now + s.timers[id].init));
  }
}
