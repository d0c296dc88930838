// timer.c itself: a skip list whose rows are ordered by 32-bit tick counts that
// wrap. Each operation is tied to its function in TimerSpec.
module TimerList {
  import opened Common
  import opened TimerSpec

  function Diff(a: int, b: int): nat { (a - b) % U32 }

  // Comparing tick counts modulo 2^32 the way rt_timer_start does is right exactly
  // when the deadlines lie in a window of this width.
  lemma ComparisonIsExact(a: int, b: int)
    requires -U32 < a - b < U32
    ensures (0 < Diff(a % U32, b % U32) < HALF <==> b < a) && (Diff(a % U32, b % U32) == 0 <==> a == b)
            <==> HALF - U32 <= a - b < HALF
  {
    DiffMod(a, b);
  }

  lemma DiffMod(a: int, b: int)
    ensures Diff(a % U32, b % U32) == (a - b) % U32
  {
    var (i, j) := (a / U32, b / U32);
    assert a % U32 - b % U32 == (a - b) - (i - j) * U32;
    ModShift(a - b, i - j);
  }

  lemma ModShift(x: int, k: int)
    ensures (x - k * U32) % U32 == x % U32
  {
    var (q, r) := (x / U32, x % U32);
    assert x - k * U32 == (q - k) * U32 + r;
  }

  // ----- rows as filters of the full list -----

  type Heights = map<Id, nat>

  predicate Tall(hs: Heights, id: Id, h: nat) { id in hs && h <= hs[id] }

  // The entries whose timers take part in rows of height h.
  function Row(q: seq<Entry>, hs: Heights, h: nat): seq<Entry> {
    if q == [] then [] else if Tall(hs, q[0].id, h) then [q[0]] + Row(q[1..], hs, h) else Row(q[1..], hs, h)
  }

  lemma RowCons(x: Entry, r: seq<Entry>, hs: Heights, h: nat)
    ensures Row([x] + r, hs, h) == if Tall(hs, x.id, h) then [x] + Row(r, hs, h) else Row(r, hs, h)
  {
    assert ([x] + r)[1..] == r;
  }

  lemma InsertCons(x: Entry, r: seq<Entry>, e: Entry)
    requires x.due <= e.due
    ensures Insert([x] + r, e) == [x] + Insert(r, e)
  {
    assert ([x] + r)[1..] == r;
  }

  lemma WithoutCons(x: Entry, r: seq<Entry>, id: Id)
    ensures Without([x] + r, id) == if x.id == id then Without(r, id) else [x] + Without(r, id)
  {
    assert ([x] + r)[1..] == r;
  }

  lemma {:induction false} RowMembers(q: seq<Entry>, hs: Heights, h: nat)
    ensures forall x :: x in Row(q, hs, h) <==> x in q && Tall(hs, x.id, h)
  {
    if q != [] { RowMembers(q[1..], hs, h); }
  }

  lemma {:induction false} RowSorted(q: seq<Entry>, hs: Heights, h: nat)
    requires Sorted(q) && Distinct(q)
    ensures Sorted(Row(q, hs, h)) && Distinct(Row(q, hs, h))
  {
    if q != [] {
      Tail(q);
      RowSorted(q[1..], hs, h);
      RowMembers(q[1..], hs, h);
      Cons(q[0], Row(q[1..], hs, h));
    }
  }

  // Every row is a subsequence of the row below it, being its filter.
  lemma {:induction false} RowOfRow(q: seq<Entry>, hs: Heights, h: nat, g: nat)
    requires g <= h
    ensures Row(Row(q, hs, g), hs, h) == Row(q, hs, h)
  {
    if q != [] {
      RowOfRow(q[1..], hs, h, g);
      RowCons(q[0], Row(q[1..], hs, g), hs, h);
    }
  }

  // Inserting into the full list inserts into the rows the new timer is tall
  // enough for, and changes no other row.
  lemma {:induction false} RowInsert(q: seq<Entry>, hs: Heights, h: nat, e: Entry, height: nat)
    requires Sorted(q) && !Pending(q, e.id)
    ensures var row := Row(q, hs, h);
            Row(Insert(q, e), hs[e.id := height], h) == if h <= height then Insert(row, e) else row
  {
    var hs' := hs[e.id := height];
    if q == [] || e.due < q[0].due {
      SameRow(q, hs, hs', e.id, h);
      RowCons(e, q, hs', h);
      RowHead(q, hs, h);
    } else {
      Tail(q);
      RowInsert(q[1..], hs, h, e, height);
      RowCons(q[0], Insert(q[1..], e), hs', h);
      InsertCons(q[0], Row(q[1..], hs, h), e);
    }
  }

  lemma RowHead(q: seq<Entry>, hs: Heights, h: nat)
    requires Sorted(q)
    ensures Row(q, hs, h) != [] ==> q != [] && q[0].due <= Row(q, hs, h)[0].due
  {
    RowMembers(q, hs, h);
    if Row(q, hs, h) != [] {
      assert Row(q, hs, h)[0] in q;
      Tail(q);
    }
  }

  lemma {:induction false} SameRow(q: seq<Entry>, hs: Heights, hs': Heights, id: Id, h: nat)
    requires !Pending(q, id)
    requires forall k :: k != id ==> (k in hs <==> k in hs') && (k in hs ==> hs[k] == hs'[k])
    ensures Row(q, hs', h) == Row(q, hs, h)
  {
    if q != [] {
      assert q[0] in q;
      SameRow(q[1..], hs, hs', id, h);
    }
  }

  lemma {:induction false} RowWithout(q: seq<Entry>, hs: Heights, h: nat, id: Id)
    ensures Row(Without(q, id), hs, h) == Without(Row(q, hs, h), id)
  {
    if q != [] {
      RowWithout(q[1..], hs, h, id);
      RowCons(q[0], Without(q[1..], id), hs, h);
      WithoutCons(q[0], Row(q[1..], hs, h), id);
    }
  }

  // ----- rows of ids -----

  function DropId(row: seq<Id>, id: Id): seq<Id> {
    if row == [] then [] else if row[0] == id then DropId(row[1..], id) else [row[0]] + DropId(row[1..], id)
  }

  lemma {:induction false} IdsAt(q: seq<Entry>)
    ensures |Ids(q)| == |q| && forall i :: 0 <= i < |q| ==> Ids(q)[i] == q[i].id
  {
    if q != [] {
      IdsAt(q[1..]);
      assert forall i :: 0 < i < |q| ==> q[i] == q[1..][i - 1];
    }
  }

  lemma {:induction false} IdsWithout(q: seq<Entry>, id: Id)
    ensures Ids(Without(q, id)) == DropId(Ids(q), id)
  {
    if q != [] {
      IdsWithout(q[1..], id);
      assert Ids(q)[1..] == Ids(q[1..]);
      if q[0].id != id { assert ([q[0]] + Without(q[1..], id))[1..] == Without(q[1..], id); }
    }
  }

  lemma RowGone(q: seq<Entry>, hs: Heights, h: nat, id: Id)
    ensures Ids(Row(Without(q, id), hs, h)) == DropId(Ids(Row(q, hs, h)), id)
  {
    RowWithout(q, hs, h, id);
    IdsWithout(Row(q, hs, h), id);
  }

  lemma RowGrown(q: seq<Entry>, hs: Heights, h: nat, e: Entry, hgt: nat)
    requires Sorted(q) && !Pending(q, e.id)
    ensures var (row, n) := (Row(q, hs, h), CountLe(Row(q, hs, h), e.due));
            && n <= |Ids(row)|
            && Ids(Row(Insert(q, e), hs[e.id := hgt], h)) == if h <= hgt then PutId(Ids(row), n, e.id) else Ids(row)
  {
    RowInsert(q, hs, h, e, hgt);
    IdsInsert(Row(q, hs, h), e);
  }

  lemma AllRowsGrown(rows: seq<seq<Id>>, rows': seq<seq<Id>>, level: nat, heads: seq<nat>, q: seq<Entry>, hs: Heights, e: Entry, hgt: nat)
    requires |rows| == |rows'| == |heads| == level && Sorted(q) && !Pending(q, e.id)
    requires forall k :: 0 <= k < level ==> rows[k] == Ids(Row(q, hs, level - k))
    requires forall k :: 0 <= k < level ==> heads[k] == CountLe(Row(q, hs, level - k), e.due) && heads[k] <= |rows[k]|
    requires forall k :: 0 <= k < level ==> rows'[k] == if level - k <= hgt then PutId(rows[k], heads[k], e.id) else rows[k]
    ensures forall k :: 0 <= k < level ==> rows'[k] == Ids(Row(Insert(q, e), hs[e.id := hgt], level - k))
  {
    hide Row, Ids, Insert, CountLe, PutId;
    forall k | 0 <= k < level ensures rows'[k] == Ids(Row(Insert(q, e), hs[e.id := hgt], level - k)) {
      RowGrown(q, hs, level - k, e, hgt);
    }
  }

  // An entry due no later than due is found in front of the place looked for.
  lemma BeforePlace(q: seq<Entry>, due: int, x: Entry)
    requires Sorted(q) && Distinct(q) && x in q && x.due <= due
    ensures x.id in Ids(q) && PlaceOf(Ids(q), x.id) < CountLe(q, due)
  {
    IdsAt(q);
    CountLeSplits(q, due);
    var n := CountLe(q, due);
    var j :| 0 <= j < |q| && q[j] == x;
    forall i | n <= i < |q| ensures due < q[i].due { assert q[n].due <= q[i].due; }
    assert forall i :: 0 <= i < j ==> Ids(q)[i] != x.id;
    PlaceIs(Ids(q), x.id, j);
  }

  // Where the search of one row leaves off the search of the next begins: at the
  // node of the same timer, which is not past the place looked for.
  lemma Handover(q: seq<Entry>, hs: Heights, h: nat, due: int, p: nat)
    requires Sorted(q) && Distinct(q) && 1 < h && 0 < p == CountLe(Row(q, hs, h), due)
    ensures p <= |Ids(Row(q, hs, h))|
    ensures var id := Ids(Row(q, hs, h))[p - 1];
            id in Ids(Row(q, hs, h - 1)) && PlaceOf(Ids(Row(q, hs, h - 1)), id) < CountLe(Row(q, hs, h - 1), due)
  {
    var row := Row(q, hs, h);
    IdsAt(row);
    CountLeSplits(row, due);
    assert row[p - 1] in row;
    RowMembers(q, hs, h);
    RowMembers(q, hs, h - 1);
    RowSorted(q, hs, h - 1);
    BeforePlace(Row(q, hs, h - 1), due, row[p - 1]);
  }

  // Index of the node of timer id in a row.
  function PlaceOf(row: seq<Id>, id: Id): (i: nat)
    ensures i <= |row|
  {
    if row == [] || row[0] == id then 0 else 1 + PlaceOf(row[1..], id)
  }

  lemma {:induction false} PlaceIs(row: seq<Id>, id: Id, j: nat)
    requires j < |row| && row[j] == id && forall i :: 0 <= i < j ==> row[i] != id
    ensures PlaceOf(row, id) == j
  {
    if 0 < j { PlaceIs(row[1..], id, j - 1); }
  }

  function PutId(row: seq<Id>, p: nat, id: Id): seq<Id>
    requires p <= |row|
  {
    row[..p] + [id] + row[p..]
  }

  lemma IdsInsert(q: seq<Entry>, e: Entry)
    ensures CountLe(q, e.due) <= |Ids(q)| && Ids(Insert(q, e)) == PutId(Ids(q), CountLe(q, e.due), e.id)
  {
    InsertIsPut(q, e);
    IdsAt(q);
    var (n, r) := (CountLe(q, e.due), Insert(q, e));
    IdsAt(r);
    forall i | 0 <= i < |r| ensures Ids(r)[i] == PutId(Ids(q), n, e.id)[i] { PutAt(q, n, e, i); }
  }

  // RT_TIMER_SKIP_LIST_MASK is 1 or 3; each row above the last takes a timer while
  // the low bits of the insertion count are zero.
  class TimerList {
    const level: nat
    const mask: nat
    var rows: seq<seq<Id>>
    var timers: map<Id, Timer>
    var timeoutTick: map<Id, nat>
    var tick: nat
    var randomNr: nat
    ghost var now: int
    ghost var queue: seq<Entry>
    ghost var height: Heights

    ghost function View(): State
      reads this
    {
      State(now, queue, timers)
    }

    // The rows show the queue, and the tick counts are its deadlines modulo 2^32.
    ghost predicate Linked()
      reads this
    {
      && 1 <= level && (mask == 1 || mask == 3) && |rows| == level && tick == now % U32
      && Sorted(queue) && Distinct(queue)
      && (forall x :: x in queue ==> x.id in timers && x.id in timeoutTick && timeoutTick[x.id] == x.due % U32 && Tall(height, x.id, 1))
      && forall k :: 0 <= k < |rows| ==> rows[k] == Ids(Row(queue, height, level - k))
    }

    ghost predicate Valid(lag: nat)
      reads this
    {
      Linked() && TimerSpec.Valid(View(), lag)
    }

    // rt_system_timer_init, then rt_timer_init for every timer.
    constructor (level: nat, mask: nat, timers: map<Id, Timer>)
      requires 1 <= level && (mask == 1 || mask == 3)
      requires forall id :: id in timers ==> !timers[id].active && TimerOk(timers[id])
      ensures Valid(0) && queue == [] && now == 0 && this.timers == timers
    {
      this.level, this.mask := level, mask;
      rows := seq(level, _ => []);
      this.timers, timeoutTick := timers, map[];
      tick, randomNr := 0, 0;
      now, queue, height := 0, [], map[];
    }

    // _rt_timer_remove: out of every row it is in.
    method Remove(id: Id)
      requires Linked() && id in timers
      modifies this`rows, this`queue
      ensures Linked() && queue == Without(old(queue), id)
    {
      ghost var rows0 := rows;
      var i := 0;
      while i < level
        invariant 0 <= i <= level && |rows| == level
        invariant forall k :: 0 <= k < level ==> rows[k] == if k < i then DropId(rows0[k], id) else rows0[k]
        modifies this`rows
      {
        rows := rows[i := DropId(rows[i], id)];
        i := i + 1;
      }
      queue := Without(queue, id);
      WithoutOk(old(queue), id);
      forall k | 0 <= k < level ensures rows[k] == Ids(Row(queue, height, level - k)) {
        RowGone(old(queue), height, level - k, id);
      }
    }

    // One row of the search in rt_timer_start, from position p of row k on.
    method Search(k: nat, from: nat, tt: nat, ghost due: int, ghost lag: nat) returns (p: nat)
      requires Linked() && k < level && Window(View(), lag)
      requires tt == due % U32 && now <= due && due - now + lag <= HALF
      requires from <= CountLe(Row(queue, height, level - k), due)
      ensures p == CountLe(Row(queue, height, level - k), due)
    {
      ghost var row := Row(queue, height, level - k);
      RowSorted(queue, height, level - k);
      RowMembers(queue, height, level - k);
      CountLeSplits(row, due);
      IdsAt(row);
      p := from;
      while p < |rows[k]|
        invariant p <= CountLe(row, due)
      {
        assert row[p] in row;
        var d := Diff(timeoutTick[rows[k][p]], tt);
        NearComparison(row[p].due, due);
        if d != 0 && d < HALF {
          break;
        }
        p := p + 1;
      }
    }

    // rt_timer_start; lag is how far a pending timer is overdue at most.
    method Start(id: Id, ghost lag: nat)
      requires Linked() && id in timers && timers[id].init + lag <= HALF && Window(View(), lag)
      modifies this`rows, this`timers, this`timeoutTick, this`randomNr, this`queue, this`height
      ensures Linked() && View() == TimerSpec.Start(old(View()), id)
    {
      Remove(id);
      WithoutOk(old(queue), id);
      var tt := (tick + timers[id].init) % U32;
      ghost var e := Entry(id, now + timers[id].init);
      AddMod(now, timers[id].init);
      var heads := FindHeads(tt, e.due, lag);
      InsertRows(id, tt, heads, e);
    }

    // The nested search of rt_timer_start: for every row the place to insert at.
    method FindHeads(tt: nat, ghost due: int, ghost lag: nat) returns (heads: seq<nat>)
      requires Linked() && Window(View(), lag) && tt == due % U32 && now <= due && due - now + lag <= HALF
      ensures |heads| == level
      ensures forall j :: 0 <= j < level ==> heads[j] == CountLe(Row(queue, height, level - j), due)
    {
      heads := [];
      var k := 0;
      while k < level
        invariant 0 <= k <= level && |heads| == k
        invariant forall j :: 0 <= j < k ==> heads[j] == CountLe(Row(queue, height, level - j), due)
      {
        var from := 0;
        if k > 0 && heads[k - 1] > 0 {
          Handover(queue, height, level - (k - 1), due, heads[k - 1]);
          from := PlaceOf(rows[k], rows[k - 1][heads[k - 1] - 1]) + 1;
        }
        var p := Search(k, from, tt, due, lag);
        heads := heads + [p];
        k := k + 1;
      }
    }

    // The second half of rt_timer_start: into the last row, and into as many rows
    // above as the insertion count says.
    method InsertRows(id: Id, tt: nat, heads: seq<nat>, ghost e: Entry)
      requires Linked() && id in timers && !Pending(queue, id) && e.id == id && tt == e.due % U32
      requires |heads| == level && forall j :: 0 <= j < level ==> heads[j] == CountLe(Row(queue, height, level - j), e.due)
      modifies this`rows, this`timers, this`timeoutTick, this`randomNr, this`queue, this`height
      ensures Linked() && queue == Insert(old(queue), e)
      ensures timers == SetActive(old(View()), id, true)
    {
      hide Insert, Row, Ids, PutId;
      RowsLongEnough(heads, e);
      ghost var rows0 := rows;
      randomNr := (randomNr + 1) % U32;
      var hgt := RaiseRows(id, heads);
      timeoutTick := timeoutTick[id := tt];
      timers := timers[id := timers[id].(active := true)];
      ghost var (q, hs) := (queue, height);
      queue, height := Insert(q, e), hs[id := hgt];
      InsertOk(q, e);
      InsertMembers(q, e);
      AllRowsGrown(rows0, rows, level, heads, q, hs, e, hgt);
    }

    lemma RowsLongEnough(heads: seq<nat>, e: Entry)
      requires Linked() && |heads| == level
      requires forall j :: 0 <= j < level ==> heads[j] == CountLe(Row(queue, height, level - j), e.due)
      ensures forall k :: 0 <= k < level ==> heads[k] <= |rows[k]|
    {
      forall k | 0 <= k < level ensures heads[k] <= |rows[k]| {
        IdsAt(Row(queue, height, level - k));
      }
    }

    // How many rows, from the last one up, take the new node.
    method RaiseRows(id: Id, heads: seq<nat>) returns (hgt: nat)
      requires 1 <= level == |rows| == |heads| && forall k :: 0 <= k < level ==> heads[k] <= |rows[k]|
      modifies this`rows
      ensures 1 <= hgt <= level == |rows|
      ensures forall k :: 0 <= k < level ==>
                rows[k] == if level - k <= hgt then PutId(old(rows)[k], heads[k], id) else old(rows)[k]
    {
      var tst := randomNr;
      ghost var rows0 := rows;
      rows := rows[level - 1 := PutId(rows[level - 1], heads[level - 1], id)];
      var rowLvl := 2;
      while rowLvl <= level
        invariant 2 <= rowLvl <= level + 1 && |rows| == level
        invariant forall k :: 0 <= k < level ==>
                    rows[k] == if level - k < rowLvl then PutId(rows0[k], heads[k], id) else rows0[k]
      {
        if tst % (mask + 1) != 0 {
          break;
        }
        rows := rows[level - rowLvl := PutId(rows[level - rowLvl], heads[level - rowLvl], id)];
        tst := tst / (mask + 1);
        rowLvl := rowLvl + 1;
      }
      hgt := rowLvl - 1;
    }

    // rt_timer_stop; false for RT_ERROR.
    method Stop(id: Id) returns (ok: bool)
      requires Linked() && id in timers
      modifies this`rows, this`timers, this`queue
      ensures Linked() && ok == old(timers[id].active)
      ensures View() == TimerSpec.Stop(old(View()), id).0 && ok == TimerSpec.Stop(old(View()), id).1
    {
      ok := timers[id].active;
      if !ok {
        return;
      }
      Remove(id);
      WithoutOk(old(queue), id);
      timers := timers[id := timers[id].(active := false)];
    }

    // One round of rt_timer_check on the first timer of the last row. Its callback
    // calls rt_timer_stop on its own timer iff the timer is in stops.
    method FireHead(id: Id, stops: set<Id>)
      requires Linked() && Window(View(), 1) && queue != [] && queue[0].id == id && !Pending(queue[1..], id)
      requires id in timers && timers[id].active && timers[id].init < HALF
      modifies this`rows, this`timers, this`timeoutTick, this`randomNr, this`queue, this`height
      ensures Linked() && View() == Fire(old(View()), stops)
    {
      hide Fire, Linked, Insert, Without;
      ghost var s := View();
      HeadGone(s, id);
      Remove(id);
      Callback(id, stops);
      Settle(id);
      FireEquals(s, stops, View());
    }

    method Callback(id: Id, stops: set<Id>)
      requires Linked() && id in timers && timers[id].active && !Pending(queue, id)
      modifies this`rows, this`timers, this`queue
      ensures Linked() && queue == old(queue)
      ensures timers == if id in stops then SetActive(old(View()), id, false) else old(timers)
    {
      if id in stops {
        WithoutNothing(queue, id);
        Remove(id);
        timers := timers[id := timers[id].(active := false)];
      }
    }

    // What rt_timer_check does after the callback.
    method Settle(id: Id)
      requires Linked() && id in timers && timers[id].init < HALF && Window(View(), 1) && !Pending(queue, id)
      modifies this`rows, this`timers, this`timeoutTick, this`randomNr, this`queue, this`height
      ensures Linked()
      ensures var (t, s) := (old(timers)[id], old(View()));
              if t.periodic && t.active then queue == Insert(s.pending, Entry(id, now + t.init)) && View().timers == s.timers
              else queue == s.pending && View().timers == SetActive(s, id, false)
    {
      hide Insert, Row, Ids, Without, Sorted, Distinct;
      var again := timers[id].periodic && timers[id].active;
      timers := timers[id := timers[id].(active := false)];
      if again {
        WithoutNothing(queue, id);
        Start(id, 1);
        assert timers == old(timers);
      }
    }

    // rt_timer_check.
    method Check(stops: set<Id>) returns (fired: seq<Id>)
      requires Valid(1)
      modifies this`rows, this`timers, this`timeoutTick, this`randomNr, this`queue, this`height
      ensures Valid(1) && View() == TimerSpec.Check(old(View()), stops, 1).0
      ensures fired == TimerSpec.Check(old(View()), stops, 1).1
    {
      hide TimerSpec.Valid, Linked, Fire;
      fired := [];
      ghost var (s, goal) := (View(), Checked(View(), stops, []));
      CheckedIs(s, stops, []);
      var due, id := Peek();
      while due
        invariant Valid(1) && s == View()
        invariant due <==> s.pending != [] && s.pending[0].due <= s.now
        invariant due ==> id == s.pending[0].id
        invariant Checked(s, stops, fired) == goal
        decreases |Due(s)|
      {
        Round(id, stops);
        s := View();
        fired := fired + [id];
        due, id := Peek();
      }
    }

    method Round(id: Id, stops: set<Id>)
      requires Valid(1) && queue != [] && queue[0].id == id && queue[0].due <= now
      modifies this`rows, this`timers, this`timeoutTick, this`randomNr, this`queue, this`height
      ensures Valid(1) && View() == Fire(old(View()), stops) && |Due(View())| < |Due(old(View()))|
    {
      CheckUnfolds(View(), stops);
      FireHead(id, stops);
    }

    // The loop test of rt_timer_check: the first timer of the last row, if it is due.
    method Peek() returns (due: bool, id: Id)
      requires Valid(1)
      ensures due <==> queue != [] && queue[0].due <= now
      ensures due ==> id == queue[0].id
    {
      RowFull(queue, height);
      if rows[level - 1] == [] {
        return false, 0;
      }
      id := rows[level - 1][0];
      assert queue[0] in queue;
      FarComparison(now, queue[0].due);
      due := Diff(tick, timeoutTick[id]) < HALF;
    }

    // The timer part of rt_tick_increase.
    method TickIncrease(stops: set<Id>) returns (fired: seq<Id>)
      requires Valid(0)
      modifies this
      ensures Valid(0) && (View(), fired) == Tick(old(View()), stops)
    {
      TickKeepsValid(View(), stops);
      AddMod(now, 1);
      tick := (tick + 1) % U32;
      now := now + 1;
      assert View() == old(View()).(now := now);
      fired := Check(stops);
    }
  }

  lemma HeadGone(s: State, id: Id)
    requires s.pending != [] && s.pending[0].id == id && !Pending(s.pending[1..], id) && Window(s, 1)
    ensures Without(s.pending, id) == s.pending[1..]
    ensures forall r: State :: r.now == s.now && r.pending == s.pending[1..] ==> Window(r, 1)
  {
    WithoutNothing(s.pending[1..], id);
  }

  // rt_timer_check with the timers fired so far.
  ghost function Checked(s: State, stops: set<Id>, fired: seq<Id>): (State, seq<Id>)
    requires TimerSpec.Valid(s, 1)
    decreases |Due(s)|
  {
    if s.pending == [] || s.now < s.pending[0].due then (s, fired)
    else
      CheckUnfolds(s, stops);
      Checked(Fire(s, stops), stops, fired + [s.pending[0].id])
  }

  lemma {:induction false} CheckedIs(s: State, stops: set<Id>, fired: seq<Id>)
    requires TimerSpec.Valid(s, 1)
    ensures var (r, rest) := TimerSpec.Check(s, stops, 1); Checked(s, stops, fired) == (r, fired + rest)
    decreases |Due(s)|
  {
    if s.pending != [] && s.pending[0].due <= s.now {
      CheckUnfolds(s, stops);
      CheckedIs(Fire(s, stops), stops, fired + [s.pending[0].id]);
      var rest := TimerSpec.Check(Fire(s, stops), stops, 1).1;
      assert fired + [s.pending[0].id] + rest == fired + ([s.pending[0].id] + rest);
    } else {
      assert fired + [] == fired;
    }
  }

  lemma CheckUnfolds(s: State, stops: set<Id>)
    requires TimerSpec.Valid(s, 1) && s.pending != [] && s.pending[0].due <= s.now
    ensures var id := s.pending[0].id;
            && id in s.timers && s.timers[id].active && s.timers[id].init < HALF && !Pending(s.pending[1..], id)
            && TimerSpec.Valid(Fire(s, stops), 1) && |Due(Fire(s, stops))| < |Due(s)|
  {
    assert s.pending[0] in s.pending;
    Tail(s.pending);
    FireKeepsValid(s, stops, 1);
    FireReducesDue(s, stops);
  }

  lemma FireEquals(s: State, stops: set<Id>, r: State)
    requires s.pending != [] && s.pending[0].id in s.timers && s.timers[s.pending[0].id].active && r.now == s.now
    requires var (id, rest) := (s.pending[0].id, s.pending[1..]);
             var t := s.timers[id];
             if t.periodic && id !in stops then r.pending == Insert(rest, Entry(id, s.now + t.init)) && r.timers == s.timers
             else r.pending == rest && r.timers == SetActive(s, id, false)
    ensures r == Fire(s, stops)
  {
    assert s.timers == SetActive(s, s.pending[0].id, true);
  }

  lemma {:induction false} RowFull(q: seq<Entry>, hs: Heights)
    requires forall x :: x in q ==> Tall(hs, x.id, 1)
    ensures Row(q, hs, 1) == q
  {
    if q != [] {
      assert q[0] in q;
      RowFull(q[1..], hs);
    }
  }

  // rt_timer_check takes a timer as due iff its deadline has come.
  lemma FarComparison(now: int, due: int)
    requires -1 <= due - now < HALF
    ensures Diff(now % U32, due % U32) < HALF <==> due <= now
  {
    DiffMod(now, due);
  }

  lemma AddMod(a: int, b: nat)
    ensures (a % U32 + b) % U32 == (a + b) % U32
  {
    ModShift(a + b, a / U32);
  }

  lemma NearComparison(a: int, b: int)
    requires -HALF <= a - b < HALF
    ensures 0 < Diff(a % U32, b % U32) < HALF <==> b < a
    ensures Diff(a % U32, b % U32) == 0 <==> a == b
  {
    ComparisonIsExact(a, b);
  }
}
