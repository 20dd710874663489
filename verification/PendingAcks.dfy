/** The pending-ACK table of the legacy sink: which client slot waits for which frame counter. */
module PendingAcks {
  import opened Bytes

  const SLOTS: nat := 8
  const TIMEOUT_US: int := 300_000

  // client is a client slot, which may have been reused since.
  datatype Entry = Entry(active: bool, cnt: byte, client: nat, sentUs: int)

  const FREE: Entry := Entry(false, 0, 0, 0)

  type Table = p: seq<Entry> | |p| == SLOTS witness [FREE, FREE, FREE, FREE, FREE, FREE, FREE, FREE]

  predicate Stale(e: Entry, now: int) {
    e.active && now - e.sentUs > TIMEOUT_US
  }

  // The stale entries among the first n are released.
  function Collect(p: Table, now: int, n: nat): (q: Table)
    requires n <= SLOTS
    ensures forall i :: 0 <= i < SLOTS ==>
      q[i] == if i < n && Stale(p[i], now) then p[i].(active := false) else p[i]
  {
    if n == 0 then p
    else
      var q := Collect(p, now, n - 1);
      if Stale(q[n - 1], now) then q[n - 1 := q[n - 1].(active := false)] else q
  }

  predicate WaitsFor(e: Entry, cnt: byte) {
    e.active && e.cnt == cnt
  }

  // First inactive entry from i on, or -1.
  function FirstFree(p: Table, i: nat): (k: int)
    requires i <= SLOTS
    ensures k == -1 || (i <= k < SLOTS && !p[k].active)
    ensures forall j :: i <= j < (if k < 0 then SLOTS else k) ==> p[j].active
    decreases SLOTS - i
  {
    if i == SLOTS then -1 else if !p[i].active then i else FirstFree(p, i + 1)
  }

  // First entry from i on that waits for cnt, or -1.
  function FirstWaiting(p: Table, cnt: byte, i: nat): (k: int)
    requires i <= SLOTS
    ensures k == -1 || (i <= k < SLOTS && WaitsFor(p[k], cnt))
    ensures forall j :: i <= j < (if k < 0 then SLOTS else k) ==> !WaitsFor(p[j], cnt)
    decreases SLOTS - i
  {
    if i == SLOTS then -1 else if WaitsFor(p[i], cnt) then i else FirstWaiting(p, cnt, i + 1)
  }

  // Two clock readings: one for collecting, one for the new entry.
  function Alloc(p: Table, cnt: byte, client: nat, gcNow: int, now: int): (Table, int) {
    var q := Collect(p, gcNow, SLOTS);
    var k := FirstFree(q, 0);
    if k < 0 then (q, -1) else (q[k := Entry(true, cnt, client, now)], k)
  }

  function Release(p: Table, k: nat): Table
    requires k < SLOTS
  {
    p[k := p[k].(active := false)]
  }

  // Allocation fails exactly when all entries are active and at most 300 ms old.
  lemma AllocFails(p: Table, cnt: byte, client: nat, gcNow: int, now: int)
    ensures Alloc(p, cnt, client, gcNow, now).1 < 0
      <==> forall i :: 0 <= i < 8 ==> p[i].active && gcNow - p[i].sentUs <= 300_000
  {
    var q := Collect(p, gcNow, SLOTS);
    if FirstFree(q, 0) < 0 {
      forall i | 0 <= i < SLOTS ensures p[i].active && gcNow - p[i].sentUs <= TIMEOUT_US {
        assert q[i].active;
      }
    } else {
      assert !q[FirstFree(q, 0)].active;
    }
  }

  // ----- Runs, with every allocation given a number

  datatype End = Expired | Routed | Dropped | Cancelled

  // born[k] is the number of the allocation last put into slot k; ended says how each finished
  // allocation finished; home[n] is the slot allocation n was put into.
  datatype Run = Run(table: Table, born: seq<nat>, home: seq<nat>, ended: map<nat, End>)

  datatype Event =
    | AllocAt(cnt: byte, client: nat, gcNow: int, now: int)
    | AckFor(cnt: byte, clientActive: bool)
    | CancelSlot(slot: nat)

  function EndSlot(r: Run, k: nat, how: End): Run
    requires k < SLOTS == |r.born|
  {
    if !r.table[k].active then r
    else r.(table := Release(r.table, k), ended := r.ended[r.born[k] := how])
  }

  function ExpireSlots(r: Run, now: int, n: nat): (q: Run)
    requires n <= SLOTS == |r.born|
    ensures q.table == Collect(r.table, now, n) && q.born == r.born && q.home == r.home
  {
    if n == 0 then r
    else
      var q := ExpireSlots(r, now, n - 1);
      if Stale(q.table[n - 1], now) then EndSlot(q, n - 1, Expired) else q
  }

  function Step(r: Run, e: Event): (q: Run)
    requires |r.born| == SLOTS
    requires e.CancelSlot? ==> e.slot < SLOTS
    ensures |q.born| == SLOTS
  {
    match e
    case AllocAt(cnt, client, gcNow, now) =>
      var q := ExpireSlots(r, gcNow, SLOTS);
      var k := FirstFree(q.table, 0);
      if k < 0 then q
      else Run(q.table[k := Entry(true, cnt, client, now)],
               q.born[k := |q.home|], q.home + [k], q.ended)
    case AckFor(cnt, clientActive) =>
      var k := FirstWaiting(r.table, cnt, 0);
      if k < 0 then r else EndSlot(r, k, if clientActive then Routed else Dropped)
    case CancelSlot(slot) => EndSlot(r, slot, Cancelled)
  }

  // The run's table moves as the table operations say.
  lemma StepIsTableOperation(r: Run, e: Event)
    requires |r.born| == SLOTS && (e.CancelSlot? ==> e.slot < SLOTS)
    ensures match e
      case AllocAt(cnt, client, gcNow, now) =>
        Step(r, e).table == Alloc(r.table, cnt, client, gcNow, now).0
      case AckFor(cnt, _) =>
        var k := FirstWaiting(r.table, cnt, 0);
        Step(r, e).table == if k < 0 then r.table else Release(r.table, k)
      case CancelSlot(slot) => Step(r, e).table == Release(r.table, slot)
  {
  }

  function ActiveCount(p: seq<Entry>): nat {
    if p == [] then 0 else ActiveCount(p[..|p| - 1]) + if p[|p| - 1].active then 1 else 0
  }

  // Every allocation made is either still in the slot it was put into, and in no other, or has
  // ended in exactly one way.
  ghost predicate Conserved(r: Run) {
    && |r.born| == SLOTS
    && (forall k :: 0 <= k < SLOTS && r.table[k].active ==> r.born[k] < |r.home| && r.home[r.born[k]] == k)
    && (forall n :: n in r.ended ==> n < |r.home|)
    && (forall n :: 0 <= n < |r.home| ==>
          r.home[n] < SLOTS
          && (n !in r.ended <==> r.table[r.home[n]].active && r.born[r.home[n]] == n))
    && |r.ended| + ActiveCount(r.table) == |r.home|
  }

  lemma {:induction false} ActiveUpdate(p: seq<Entry>, k: nat, e: Entry)
    requires k < |p|
    ensures ActiveCount(p[k := e])
         == ActiveCount(p) - (if p[k].active then 1 else 0) + (if e.active then 1 else 0)
  {
    var n := |p| - 1;
    if k == n {
      assert p[k := e][..n] == p[..n];
    } else {
      assert p[k := e][..n] == p[..n][k := e];
      ActiveUpdate(p[..n], k, e);
    }
  }

  // What has ended stays ended the same way.
  ghost predicate EndingsKept(r: Run, q: Run) {
    forall n :: n in r.ended ==> n in q.ended && q.ended[n] == r.ended[n]
  }

  lemma EndConserved(r: Run, k: nat, how: End)
    requires Conserved(r) && k < SLOTS
    ensures Conserved(EndSlot(r, k, how)) && EndingsKept(r, EndSlot(r, k, how))
  {
    if r.table[k].active {
      ActiveUpdate(r.table, k, r.table[k].(active := false));
      assert r.born[k] !in r.ended;
    }
  }

  lemma EndingsChain(r: Run, q: Run, s: Run)
    requires EndingsKept(r, q)
    ensures EndingsKept(q, s) ==> EndingsKept(r, s)
  {
  }

  lemma {:induction false} ExpireConserved(r: Run, now: int, n: nat)
    requires Conserved(r) && n <= SLOTS
    ensures Conserved(ExpireSlots(r, now, n)) && EndingsKept(r, ExpireSlots(r, now, n))
  {
    if n == 0 {
    } else {
      assert |r.born| == SLOTS;
      hide Conserved, EndSlot, EndingsKept;
      ExpireConserved(r, now, n - 1);
      var q := ExpireSlots(r, now, n - 1);
      EndConserved(q, n - 1, Expired);
      EndingsChain(r, q, ExpireSlots(r, now, n));
    }
  }

  lemma FillConserved(r: Run, k: nat, e: Entry)
    requires Conserved(r) && k < SLOTS && !r.table[k].active && e.active
    ensures Conserved(Run(r.table[k := e], r.born[k := |r.home|], r.home + [k], r.ended))
  {
    ActiveUpdate(r.table, k, e);
  }

  lemma StepConserved(r: Run, e: Event)
    requires Conserved(r) && (e.CancelSlot? ==> e.slot < SLOTS)
    ensures Conserved(Step(r, e)) && EndingsKept(r, Step(r, e))
  {
    match e
    case AllocAt(cnt, client, gcNow, now) =>
      ExpireConserved(r, gcNow, SLOTS);
      var q := ExpireSlots(r, gcNow, SLOTS);
      var k := FirstFree(q.table, 0);
      if k >= 0 {
        FillConserved(q, k, Entry(true, cnt, client, now));
      }
    case AckFor(cnt, clientActive) =>
      var k := FirstWaiting(r.table, cnt, 0);
      if k >= 0 {
        EndConserved(r, k, if clientActive then Routed else Dropped);
      }
    case CancelSlot(slot) =>
      EndConserved(r, slot, Cancelled);
  }

  const BLANK: Run :=
    Run([FREE, FREE, FREE, FREE, FREE, FREE, FREE, FREE], [0, 0, 0, 0, 0, 0, 0, 0], [], map[])

  ghost predicate LegalEvents(events: seq<Event>) {
    forall i :: 0 <= i < |events| && events[i].CancelSlot? ==> events[i].slot < SLOTS
  }

  // In every reachable state all allocations are accounted for.
  ghost function Reached(events: seq<Event>): (r: Run)
    requires LegalEvents(events)
    ensures Conserved(r)
  {
    if events == [] then
      assert Conserved(BLANK) by { BlankConserved(); }
      BLANK
    else
      var r := Reached(events[..|events| - 1]);
      StepConserved(r, events[|events| - 1]);
      Step(r, events[|events| - 1])
  }

  ghost function EndedAs(r: Run, how: End): set<nat> {
    set n | n in r.ended && r.ended[n] == how
  }

  // Allocations made = ACKs routed + ACKs dropped + expiries + cancellations + still active.
  lemma AllocationsBalance(events: seq<Event>)
    requires LegalEvents(events)
    ensures var r := Reached(events);
      |r.home| == |EndedAs(r, Routed)| + |EndedAs(r, Dropped)| + |EndedAs(r, Expired)|
                  + |EndedAs(r, Cancelled)| + ActiveCount(r.table)
  {
    hide Reached;
    var r := Reached(events);
    var acked, timed := EndedAs(r, Routed) + EndedAs(r, Dropped), EndedAs(r, Expired) + EndedAs(r, Cancelled);
    assert EndedAs(r, Routed) !! EndedAs(r, Dropped) && EndedAs(r, Expired) !! EndedAs(r, Cancelled);
    assert acked !! timed && acked + timed == r.ended.Keys;
    assert |acked + timed| == |r.ended|;
  }

  lemma {:induction false} NoneActive(p: seq<Entry>)
    requires forall i :: 0 <= i < |p| ==> !p[i].active
    ensures ActiveCount(p) == 0
  {
    if p == [] {
    } else {
      NoneActive(p[..|p| - 1]);
    }
  }

  lemma BlankConserved()
    ensures Conserved(BLANK)
  {
    NoneActive(BLANK.table);
  }

  // When only slot 0 can be stale, collecting releases at most that slot.
  lemma {:induction false} ExpireFirst(r: Run, now: int, n: nat)
    requires n <= SLOTS == |r.born|
    requires forall i :: 1 <= i < SLOTS ==> !r.table[i].active
    ensures ExpireSlots(r, now, n) ==
      if n > 0 && Stale(r.table[0], now) then EndSlot(r, 0, Expired) else r
  {
    if n == 0 {
    } else {
      ExpireFirst(r, now, n - 1);
    }
  }

  // Freeing by index after a blocking transmission longer than the timeout: allocation 0 has expired,
  // slot 0 has gone to allocation 1, and cancelling slot 0 ends allocation 1.
  const FIRST: Event := AllocAt(7, 0, 0, 0)
  const SECOND: Event := AllocAt(9, 1, 400_000, 400_000)

  lemma FirstAllocation()
    ensures Step(BLANK, FIRST) ==
      BLANK.(table := BLANK.table[0 := Entry(true, 7, 0, 0)], home := [0])
  {
    ExpireFirst(BLANK, 0, SLOTS);
  }

  lemma SecondAllocation()
    ensures Step(Step(BLANK, FIRST), SECOND) ==
      Run(BLANK.table[0 := Entry(true, 9, 1, 400_000)], BLANK.born[0 := 1], [0, 0], map[0 := Expired])
  {
    FirstAllocation();
    var r := BLANK.(table := BLANK.table[0 := Entry(true, 7, 0, 0)], home := [0]);
    ExpireFirst(r, 400_000, SLOTS);
    var q := EndSlot(r, 0, Expired);
    assert q.table == BLANK.table[0 := Entry(false, 7, 0, 0)] && q.ended == map[0 := Expired];
    assert q.table[0 := Entry(true, 9, 1, 400_000)] == BLANK.table[0 := Entry(true, 9, 1, 400_000)];
  }

  lemma LateCancelHitsOther()
    ensures LegalEvents([FIRST, SECOND, CancelSlot(0)])
    ensures Reached([FIRST, SECOND, CancelSlot(0)]).ended == map[0 := Expired, 1 := Cancelled]
  {
    hide Conserved, Step;
    var events := [FIRST, SECOND, CancelSlot(0)];
    assert events[..2] == [FIRST, SECOND] && [FIRST, SECOND][..1] == [FIRST] && [FIRST][..0] == [];
    assert Reached([FIRST]) == Step(BLANK, FIRST);
    assert Reached([FIRST, SECOND]) == Step(Step(BLANK, FIRST), SECOND);
    SecondAllocation();
    CancelEnds(Reached([FIRST, SECOND]), 0);
  }

  lemma CancelEnds(r: Run, k: nat)
    requires k < SLOTS == |r.born| && r.table[k].active
    ensures Step(r, CancelSlot(k)).ended == r.ended[r.born[k] := Cancelled]
  {
  }
}
