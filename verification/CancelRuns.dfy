/** What a cancellation by slot index does after any events since the allocation: when it still
    ends the caller's own entry, when it ends somebody else's, and when it does nothing. */
module CancelRuns {
  import opened Bytes
  import opened PendingAcks

  // ----- The table alone, as the firmware has it

  function TableStep(p: Table, e: Event): Table
    requires e.CancelSlot? ==> e.slot < SLOTS
  {
    match e
    case AllocAt(cnt, client, gcNow, now) => Alloc(p, cnt, client, gcNow, now).0
    case AckFor(cnt, _) =>
      var k := FirstWaiting(p, cnt, 0);
      if k < 0 then p else Release(p, k)
    case CancelSlot(slot) => Release(p, slot)
  }

  function TableAfter(p: Table, mid: seq<Event>): Table
    requires LegalEvents(mid)
    decreases |mid|
  {
    if mid == [] then p else TableAfter(TableStep(p, mid[0]), mid[1..])
  }

  // The event leaves an entry of slot k, sent at t, alone: it does not collect after more than
  // 300 ms, does not route an ACK to slot k, and does not cancel slot k.
  predicate Spares(p: Table, e: Event, k: nat, t: int) {
    match e
    case AllocAt(_, _, gcNow, _) => gcNow - t <= 300_000
    case AckFor(cnt, _) => FirstWaiting(p, cnt, 0) != k
    case CancelSlot(slot) => slot != k
  }

  // All of the events, one after the other, leave it alone.
  predicate Spared(p: Table, mid: seq<Event>, k: nat, t: int)
    requires LegalEvents(mid)
    decreases |mid|
  {
    mid == [] || (Spares(p, mid[0], k, t) && Spared(TableStep(p, mid[0]), mid[1..], k, t))
  }

  // The event puts a new entry into slot k.
  predicate Fills(p: Table, e: Event, k: nat) {
    e.AllocAt? && FirstFree(Collect(p, e.gcNow, SLOTS), 0) == k
  }

  // Some event puts a new entry into slot k, and those after it leave that entry alone.
  predicate Refilled(p: Table, mid: seq<Event>, k: nat)
    requires LegalEvents(mid)
    decreases |mid|
  {
    mid != [] &&
    var q := TableStep(p, mid[0]);
    (Fills(p, mid[0], k) && Spared(q, mid[1..], k, mid[0].now)) || Refilled(q, mid[1..], k)
  }

  // An ACK is routed to the entry's client, and the entry was left alone until then.
  predicate Acked(p: Table, mid: seq<Event>, k: nat, t: int)
    requires LegalEvents(mid)
    decreases |mid|
  {
    mid != [] &&
    ((mid[0].AckFor? && mid[0].clientActive && FirstWaiting(p, mid[0].cnt, 0) == k)
     || (Spares(p, mid[0], k, t) && Acked(TableStep(p, mid[0]), mid[1..], k, t)))
  }

  lemma {:induction false} AckedNotSpared(p: Table, mid: seq<Event>, k: nat, t: int)
    requires LegalEvents(mid) && Acked(p, mid, k, t)
    ensures !Spared(p, mid, k, t)
    decreases |mid|
  {
    if Spares(p, mid[0], k, t) {
      AckedNotSpared(TableStep(p, mid[0]), mid[1..], k, t);
    }
  }

  // What one event does to slot k.
  lemma SlotStep(p: Table, e: Event, k: nat)
    requires k < SLOTS && (e.CancelSlot? ==> e.slot < SLOTS)
    ensures var q := TableStep(p, e)[k];
      && (Fills(p, e, k) ==> q == Entry(true, e.cnt, e.client, e.now) && !(p[k].active && Spares(p, e, k, p[k].sentUs)))
      && (!Fills(p, e, k) ==> q == if Spares(p, e, k, p[k].sentUs) then p[k] else p[k].(active := false))
  {
    if e.AllocAt? {
      var c := Collect(p, e.gcNow, SLOTS);
      assert c[k] == if Stale(p[k], e.gcNow) then p[k].(active := false) else p[k];
    }
  }

  // Slot k is taken at the end exactly by an entry that was there and was spared, or by one put
  // there later and spared since.
  lemma {:induction false} TakenIff(p: Table, mid: seq<Event>, k: nat)
    requires k < SLOTS && LegalEvents(mid)
    ensures TableAfter(p, mid)[k].active
      <==> (p[k].active && Spared(p, mid, k, p[k].sentUs)) || Refilled(p, mid, k)
    decreases |mid|
  {
    if mid != [] {
      SlotStep(p, mid[0], k);
      TakenIff(TableStep(p, mid[0]), mid[1..], k);
    }
  }

  // ----- Runs

  function RunAfter(r: Run, mid: seq<Event>): (q: Run)
    requires |r.born| == SLOTS && LegalEvents(mid)
    ensures |q.born| == SLOTS
    decreases |mid|
  {
    if mid == [] then r else RunAfter(Step(r, mid[0]), mid[1..])
  }

  lemma {:induction false} RunAfterAppend(r: Run, a: seq<Event>, b: seq<Event>)
    requires |r.born| == SLOTS && LegalEvents(a) && LegalEvents(b)
    ensures LegalEvents(a + b) && RunAfter(r, a + b) == RunAfter(RunAfter(r, a), b)
    decreases |a|
  {
    if a == [] {
      assert a + b == b;
    } else {
      assert (a + b)[1..] == a[1..] + b && (a + b)[0] == a[0];
      RunAfterAppend(Step(r, a[0]), a[1..], b);
    }
  }

  lemma SameTable(r: Run, e: Event)
    requires |r.born| == SLOTS && (e.CancelSlot? ==> e.slot < SLOTS)
    ensures Step(r, e).table == TableStep(r.table, e)
  {
    StepIsTableOperation(r, e);
  }

  lemma {:induction false} RunAfterKeeps(r: Run, mid: seq<Event>)
    requires Conserved(r) && LegalEvents(mid)
    ensures Conserved(RunAfter(r, mid)) && EndingsKept(r, RunAfter(r, mid))
    ensures RunAfter(r, mid).table == TableAfter(r.table, mid)
    decreases |mid|
  {
    if mid != [] {
      var q := Step(r, mid[0]);
      hide Conserved, EndingsKept, Step, TableStep;
      StepConserved(r, mid[0]);
      SameTable(r, mid[0]);
      RunAfterKeeps(q, mid[1..]);
      EndingsChain(r, q, RunAfter(q, mid[1..]));
    }
  }

  // One event ends a live allocation exactly if it does not spare its slot.
  lemma StepOwn(r: Run, e: Event, n: nat)
    requires Conserved(r) && n < |r.home| && n !in r.ended && (e.CancelSlot? ==> e.slot < SLOTS)
    ensures n < |Step(r, e).home| && Step(r, e).home[n] == r.home[n]
    ensures n !in Step(r, e).ended <==> Spares(r.table, e, r.home[n], r.table[r.home[n]].sentUs)
    ensures n !in Step(r, e).ended ==> Step(r, e).table[r.home[n]] == r.table[r.home[n]]
  {
    var k := r.home[n];
    StepConserved(r, e);
    SameTable(r, e);
    SlotStep(r.table, e, k);
    if e.AllocAt? {
      ExpireConserved(r, e.gcNow, SLOTS);
    }
  }

  // A live allocation is still live after the events exactly if they all spare its slot.
  lemma {:induction false} OwnIff(r: Run, mid: seq<Event>, n: nat)
    requires Conserved(r) && LegalEvents(mid) && n < |r.home| && n !in r.ended
    ensures var q := RunAfter(r, mid);
      && n < |q.home| && q.home[n] == r.home[n]
      && (n !in q.ended <==> Spared(r.table, mid, r.home[n], r.table[r.home[n]].sentUs))
    decreases |mid|
  {
    if mid != [] {
      var q := Step(r, mid[0]);
      StepConserved(r, mid[0]);
      StepOwn(r, mid[0], n);
      SameTable(r, mid[0]);
      RunAfterKeeps(q, mid[1..]);
      HomeKept(q, mid[1..], n);
      if n !in q.ended {
        OwnIff(q, mid[1..], n);
      }
    }
  }

  // What an expiry ends, it ends as expired.
  lemma {:induction false} ExpireHow(r: Run, now: int, c: nat, n: nat)
    requires |r.born| == SLOTS && c <= SLOTS && n !in r.ended
    ensures n in ExpireSlots(r, now, c).ended ==> ExpireSlots(r, now, c).ended[n] == Expired
    decreases c
  {
    hide Collect, Stale;
    if c > 0 {
      ExpireHow(r, now, c - 1, n);
    }
  }

  // How one event ends a live allocation: as routed exactly if it is an ACK routed to its slot for an
  // active client.
  lemma StepRoutes(r: Run, e: Event, n: nat)
    requires Conserved(r) && n < |r.home| && n !in r.ended && (e.CancelSlot? ==> e.slot < SLOTS)
    ensures n in Step(r, e).ended && Step(r, e).ended[n] == Routed
      <==> e.AckFor? && e.clientActive && FirstWaiting(r.table, e.cnt, 0) == r.home[n]
  {
    StepOwn(r, e, n);
    if e.AllocAt? {
      ExpireHow(r, e.gcNow, SLOTS, n);
    }
  }

  // Over any events a live allocation is ended by a routed ACK exactly if one reached it.
  lemma {:induction false} RoutedIff(r: Run, mid: seq<Event>, n: nat)
    requires Conserved(r) && LegalEvents(mid) && n < |r.home| && n !in r.ended
    ensures var q := RunAfter(r, mid);
      n in q.ended && q.ended[n] == Routed <==> Acked(r.table, mid, r.home[n], r.table[r.home[n]].sentUs)
    decreases |mid|
  {
    if mid != [] {
      hide Conserved;
      var q := Step(r, mid[0]);
      BornShape(r);
      StepConserved(r, mid[0]);
      StepOwn(r, mid[0], n);
      StepRoutes(r, mid[0], n);
      SameTable(r, mid[0]);
      RunAfterKeeps(q, mid[1..]);
      hide Step, TableStep;
      if n !in q.ended {
        RoutedIff(q, mid[1..], n);
      }
    }
  }

  lemma BornShape(r: Run)
    requires Conserved(r)
    ensures |r.born| == SLOTS
  {
  }

  lemma {:induction false} HomeKept(r: Run, mid: seq<Event>, n: nat)
    requires |r.born| == SLOTS && LegalEvents(mid) && n < |r.home|
    ensures n < |RunAfter(r, mid).home| && RunAfter(r, mid).home[n] == r.home[n]
    decreases |mid|
  {
    if mid != [] {
      HomeGrows(r, mid[0], n);
      HomeKept(Step(r, mid[0]), mid[1..], n);
    }
  }

  lemma HomeGrows(r: Run, e: Event, n: nat)
    requires |r.born| == SLOTS && (e.CancelSlot? ==> e.slot < SLOTS) && n < |r.home|
    ensures n < |Step(r, e).home| && Step(r, e).home[n] == r.home[n]
  {
  }

  lemma {:induction false} ReachedAppend(before: seq<Event>, mid: seq<Event>)
    requires LegalEvents(before + mid)
    ensures LegalEvents(before) && LegalEvents(mid)
    ensures Reached(before + mid) == RunAfter(Reached(before), mid)
    decreases |mid|
  {
    Legal(before, mid);
    if mid == [] {
      assert before + mid == before;
    } else {
      var more := before + [mid[0]];
      assert more + mid[1..] == before + mid;
      ReachedAppend(more, mid[1..]);
      assert more[..|more| - 1] == before;
    }
  }

  lemma Legal(before: seq<Event>, mid: seq<Event>)
    requires LegalEvents(before + mid)
    ensures LegalEvents(before) && LegalEvents(mid)
  {
    forall i | 0 <= i < |before| && before[i].CancelSlot? ensures before[i].slot < SLOTS {
      assert (before + mid)[i] == before[i];
    }
    forall i | 0 <= i < |mid| && mid[i].CancelSlot? ensures mid[i].slot < SLOTS {
      assert (before + mid)[|before| + i] == mid[i];
    }
  }

  // The slot an allocation gets after these events, or -1.
  ghost function SlotGiven(before: seq<Event>, alloc: Event): int
    requires LegalEvents(before) && alloc.AllocAt?
  {
    Alloc(Reached(before).table, alloc.cnt, alloc.client, alloc.gcNow, alloc.now).1
  }

  // What cancelling slot k does to the state after the events: it ends allocation m.
  ghost predicate CancelEndsOnly(q: Run, k: nat, m: nat)
    requires Conserved(q) && k < SLOTS
  {
    m !in q.ended && Step(q, CancelSlot(k)).ended == q.ended[m := Cancelled]
  }

  lemma Given(r: Run, alloc: Event)
    requires Conserved(r) && alloc.AllocAt?
    requires Alloc(r.table, alloc.cnt, alloc.client, alloc.gcNow, alloc.now).1 >= 0
    ensures var k, q, n := Alloc(r.table, alloc.cnt, alloc.client, alloc.gcNow, alloc.now).1, Step(r, alloc), |r.home|;
      && k < SLOTS && q.home == r.home + [k] && q.born[k] == n && n !in q.ended
      && q.table[k] == Entry(true, alloc.cnt, alloc.client, alloc.now)
  {
    StepConserved(r, alloc);
    ExpireConserved(r, alloc.gcNow, SLOTS);
  }

  lemma {:induction false} BornLater(r: Run, mid: seq<Event>, k: nat, n: nat)
    requires |r.born| == SLOTS && LegalEvents(mid) && k < SLOTS && r.born[k] >= n && |r.home| > n
    ensures RunAfter(r, mid).born[k] >= n
    decreases |mid|
  {
    if mid != [] {
      BornStep(r, mid[0], k, n);
      BornLater(Step(r, mid[0]), mid[1..], k, n);
    }
  }

  lemma BornStep(r: Run, e: Event, k: nat, n: nat)
    requires |r.born| == SLOTS && (e.CancelSlot? ==> e.slot < SLOTS) && k < SLOTS
    requires r.born[k] >= n && |r.home| > n
    ensures Step(r, e).born[k] >= n && |Step(r, e).home| > n
  {
  }

  // Exactly the allocation that holds slot k is ended, if one does.
  lemma CancelOutcome(q: Run, k: nat, m: nat)
    requires Conserved(q) && k < SLOTS
    ensures CancelEndsOnly(q, k, m) <==> q.table[k].active && m == q.born[k]
    ensures Step(q, CancelSlot(k)) == q <==> !q.table[k].active
  {
    var s := Step(q, CancelSlot(k));
    if q.table[k].active {
      var b := q.born[k];
      assert q.home[b] == k;
      assert b !in q.ended && s.ended == q.ended[b := Cancelled];
      if m != b {
        assert b in s.ended && b !in q.ended[m := Cancelled];
      }
      assert !s.table[k].active;
    } else {
      assert m !in q.ended ==> m in q.ended[m := Cancelled];
    }
  }

  // The same from any state in which slot k holds the live allocation n, the latest made.
  lemma CancelAfter(r: Run, mid: seq<Event>, k: nat, n: nat)
    requires Conserved(r) && LegalEvents(mid) && k < SLOTS && |r.home| == n + 1
    requires r.home[n] == k && n !in r.ended
    ensures var p, q, t := r.table, RunAfter(r, mid), r.table[k].sentUs;
      && Conserved(q)
      && (CancelEndsOnly(q, k, n) <==> Spared(p, mid, k, t))
      && ((exists m :: m > n && CancelEndsOnly(q, k, m)) <==> !Spared(p, mid, k, t) && Refilled(p, mid, k))
      && (Step(q, CancelSlot(k)) == q <==> !Spared(p, mid, k, t) && !Refilled(p, mid, k))
  {
    var q := RunAfter(r, mid);
    assert |r.born| == SLOTS && r.table[k].active && r.born[k] == n;
    RunAfterKeeps(r, mid);
    OwnIff(r, mid, n);
    TakenIff(r.table, mid, k);
    BornLater(r, mid, k, n);
    var b := q.born[k];
    assert n !in q.ended <==> q.table[k].active && b == n;
    hide Conserved, RunAfter, EndingsKept, Spared, Refilled, TableAfter, Step, CancelEndsOnly;
    CancelOutcome(q, k, n);
    CancelOutcome(q, k, b);
    forall m | m > n && CancelEndsOnly(q, k, m) ensures m == b && q.table[k].active {
      CancelOutcome(q, k, m);
    }
  }

  // In every run: an allocation that was given slot k at time t, any events `mid`, then its
  // cancellation by index. The cancellation ends the caller's own allocation exactly if every
  // event in `mid` spares slot k: none collects later than 300 ms after t, none routes an ACK to
  // slot k, none cancels slot k. Otherwise it ends a later allocation exactly if `mid` refilled
  // slot k and spared it since, and else it does nothing.
  lemma CancelIff(before: seq<Event>, alloc: Event, mid: seq<Event>)
    requires LegalEvents(before) && LegalEvents(before + [alloc]) && LegalEvents(before + [alloc] + mid)
    requires alloc.AllocAt? && SlotGiven(before, alloc) >= 0
    ensures var k, n := SlotGiven(before, alloc), |Reached(before).home|;
      var p, q := Reached(before + [alloc]).table, Reached(before + [alloc] + mid);
      && k < SLOTS && LegalEvents(mid)
      && p[k] == Entry(true, alloc.cnt, alloc.client, alloc.now)
      && (CancelEndsOnly(q, k, n) <==> Spared(p, mid, k, alloc.now))
      && ((exists m :: m > n && CancelEndsOnly(q, k, m)) <==> !Spared(p, mid, k, alloc.now) && Refilled(p, mid, k))
      && (Step(q, CancelSlot(k)) == q <==> !Spared(p, mid, k, alloc.now) && !Refilled(p, mid, k))
  {
    ReachedAppend(before, [alloc]);
    RunOne(Reached(before), alloc);
    Given(Reached(before), alloc);
    ReachedAppend(before + [alloc], mid);
    hide Conserved, Step, RunAfter, Reached, Spared, Refilled, CancelEndsOnly;
    CancelAfter(Reached(before + [alloc]), mid, SlotGiven(before, alloc), |Reached(before).home|);
  }

  lemma RunOne(r: Run, e: Event)
    requires |r.born| == SLOTS && LegalEvents([e])
    ensures RunAfter(r, [e]) == Step(r, e)
  {
    assert [e][1..] == [];
  }

  // Enough to be safe, without looking at the table: no collection later than 300 ms, no ACK for
  // the entry's own counter from whatever sender, no cancellation of its slot.
  lemma {:induction false} QuickAndUnacked(p: Table, mid: seq<Event>, k: nat)
    requires k < SLOTS && p[k].active && LegalEvents(mid)
    requires forall i :: 0 <= i < |mid| ==>
      match mid[i]
      case AllocAt(_, _, gcNow, _) => gcNow - p[k].sentUs <= 300_000
      case AckFor(cnt, _) => cnt != p[k].cnt
      case CancelSlot(slot) => slot != k
    ensures Spared(p, mid, k, p[k].sentUs)
    decreases |mid|
  {
    if mid != [] {
      SlotStep(p, mid[0], k);
      QuickAndUnacked(TableStep(p, mid[0]), mid[1..], k);
    }
  }

  // No delay is needed to miss: an ACK for the same counter, which the stick may have sent for
  // another sink's frame, frees slot 0 after a microsecond, and the next allocation gets it.
  const EARLY_ACK: Event := AckFor(7, true)
  const NEXT: Event := AllocAt(9, 1, 2, 2)

  lemma EarlyFree()
    ensures Step(Step(BLANK, FIRST), EARLY_ACK) ==
      BLANK.(table := BLANK.table[0 := Entry(false, 7, 0, 0)], home := [0], ended := map[0 := Routed])
  {
    FirstAllocation();
  }

  lemma EarlyRefill()
    ensures Step(Step(Step(BLANK, FIRST), EARLY_ACK), NEXT) ==
      Run(BLANK.table[0 := Entry(true, 9, 1, 2)], BLANK.born[0 := 1], [0, 0], map[0 := Routed])
  {
    EarlyFree();
    var r := Step(Step(BLANK, FIRST), EARLY_ACK);
    ExpireFirst(r, 2, SLOTS);
    assert r.table[0 := Entry(true, 9, 1, 2)] == BLANK.table[0 := Entry(true, 9, 1, 2)];
  }

  lemma ReachedSnoc(events: seq<Event>, e: Event)
    requires LegalEvents(events) && (e.CancelSlot? ==> e.slot < SLOTS)
    ensures LegalEvents(events + [e]) && Reached(events + [e]) == Step(Reached(events), e)
  {
    assert (events + [e])[..|events|] == events;
  }

  lemma EarlyAckHitsOther()
    ensures LegalEvents([FIRST, EARLY_ACK, NEXT, CancelSlot(0)])
    ensures Reached([FIRST, EARLY_ACK, NEXT, CancelSlot(0)]).ended == map[0 := Routed, 1 := Cancelled]
  {
    hide Conserved, Step, Reached;
    EarlyRefill();
    ReachedNone();
    ReachedSnoc([], FIRST);
    ReachedSnoc([FIRST], EARLY_ACK);
    ReachedSnoc([FIRST, EARLY_ACK], NEXT);
    ReachedSnoc([FIRST, EARLY_ACK, NEXT], CancelSlot(0));
    assert [] + [FIRST] == [FIRST] && [FIRST] + [EARLY_ACK] == [FIRST, EARLY_ACK];
    assert [FIRST, EARLY_ACK] + [NEXT] == [FIRST, EARLY_ACK, NEXT];
    assert [FIRST, EARLY_ACK, NEXT] + [CancelSlot(0)] == [FIRST, EARLY_ACK, NEXT, CancelSlot(0)];
    CancelEnds(Reached([FIRST, EARLY_ACK, NEXT]), 0);
  }

  lemma ReachedNone()
    ensures Reached([]) == BLANK
  {
  }
}
