/** Runs of the TX lock with any number of calls in flight. Each mutex-protected section is one
    step; the transmission itself runs between a call's check and its stamp. */
module TxRuns {
  import opened Bytes
  import opened Wrappers
  import opened TxLock

  datatype Phase = Checking(who: SinkId) | Sending(sender: Option<SinkId>)

  datatype Event =
    | Enter(call: nat, sender: Option<SinkId>, ready: bool)
    | Check(call: nat)
    | Finish(call: nat, ok: bool, len: nat)
    | Master(id: Option<string>)
    | NewSink(sink: SinkId, shortId: Option<string>)

  // An event at its clock reading; the sections that read no clock carry the current time.
  datatype Timed = Timed(now: int, event: Event)

  // unknownRejects counts, beside the lock, the refusals of sinks that are not attached.
  datatype System = System(lock: Lock, calls: map<nat, Phase>, unknownRejects: nat)

  const START: System := System(INITIAL, map[], 0)

  // Every sink is attached once, as the start-up code does.
  predicate Enabled(s: System, e: Event) {
    match e
    case Enter(call, _, _) => call !in s.calls
    case Check(call) => call in s.calls && s.calls[call].Checking?
    case Finish(call, _, _) => call in s.calls && s.calls[call].Sending?
    case Master(_) => true
    case NewSink(sink, _) => sink !in s.lock.sinks
  }

  function Apply(s: System, t: Timed): System
    requires Valid(s.lock) && Enabled(s, t.event)
  {
    var b := s.lock;
    match t.event
    case Enter(call, sender, ready) =>
      var calls := if !ready then s.calls
                   else s.calls[call := if sender.Some? then Checking(sender.value) else Sending(None)];
      s.(lock := Ready(b, ready), calls := calls)
    case Check(call) =>
      var who := s.calls[call].who;
      var admitted := Admits(b, who, t.now);
      System(Claim(b, who, t.now),
             if admitted then s.calls[call := Sending(Some(who))] else s.calls - {call},
             s.unknownRejects + if !admitted && who !in b.sinks then 1 else 0)
    case Finish(call, ok, len) =>
      s.(lock := if ok then Stamp(b, len, t.now) else b, calls := s.calls - {call})
    case Master(id) => s.(lock := SetMaster(b, id))
    case NewSink(sink, shortId) => s.(lock := Attach(b, sink, shortId))
  }

  predicate Distinct(xs: seq<SinkId>) {
    forall i, j :: 0 <= i < j < |xs| ==> xs[i] != xs[j]
  }

  function Sum(xs: seq<u32>): nat {
    if xs == [] then 0 else xs[0] + Sum(xs[1..])
  }

  // Refusals are counted three ways, and all ways agree.
  ghost predicate RejectsBalance(s: System) {
    && s.lock.droppedLocked == s.lock.rejectedTotal
    && (Sum(s.lock.rejected) + s.unknownRejects - s.lock.rejectedTotal) % TWO32 == 0
  }

  ghost predicate Inv(s: System) {
    Valid(s.lock) && Distinct(s.lock.sinks) && RejectsBalance(s)
  }

  // The events happen in this order, at nondecreasing times from `from` on.
  ghost predicate IsRun(s: System, from: int, run: seq<Timed>)
    decreases run
  {
    if run == [] then true
    else
      && from <= run[0].now
      && Valid(s.lock) && Enabled(s, run[0].event)
      && IsRun(Apply(s, run[0]), run[0].now, run[1..])
  }

  ghost function After(s: System, from: int, run: seq<Timed>): System
    requires IsRun(s, from, run)
    decreases run
  {
    if run == [] then s else After(Apply(s, run[0]), run[0].now, run[1..])
  }

  // ----- What every step keeps

  lemma {:induction false} SumUpdate(xs: seq<u32>, i: nat, v: u32)
    requires i < |xs|
    ensures Sum(xs[i := v]) == Sum(xs) - xs[i] + v
  {
    if i == 0 {
    } else {
      assert xs[i := v][1..] == xs[1..][i - 1 := v];
      SumUpdate(xs[1..], i - 1, v);
    }
  }

  lemma CountOnce(total: int, part: u32, counted: u32)
    requires (total - counted) % TWO32 == 0
    ensures (total - part + Inc(part) - Inc(counted)) % TWO32 == 0
    ensures (total + 1 - Inc(counted)) % TWO32 == 0
  {
  }

  lemma ClaimKeepsInv(s: System, t: Timed)
    requires Inv(s) && t.event.Check? && Enabled(s, t.event)
    ensures Inv(Apply(s, t))
  {
    var b, who := s.lock, s.calls[t.event.call].who;
    var mine := Index(b.sinks, who);
    if !Admits(b, who, t.now) {
      var part := if mine >= 0 then b.rejected[mine] else 0;
      CountOnce(Sum(b.rejected) + s.unknownRejects, part, b.rejectedTotal);
      if mine >= 0 {
        SumUpdate(b.rejected, mine, Inc(part));
      }
    }
  }

  lemma StepKeepsInv(s: System, t: Timed)
    requires Inv(s) && Enabled(s, t.event)
    ensures Inv(Apply(s, t))
  {
    if t.event.Check? {
      ClaimKeepsInv(s, t);
    }
  }

  lemma {:induction false} RunKeepsInv(s: System, from: int, run: seq<Timed>)
    requires Inv(s) && IsRun(s, from, run)
    ensures Inv(After(s, from, run))
    decreases run
  {
    if run == [] {
    } else {
      StepKeepsInv(s, run[0]);
      RunKeepsInv(Apply(s, run[0]), run[0].now, run[1..]);
    }
  }

  lemma {:induction false} StartInv()
    ensures Inv(START)
  {
    assert Sum([0, 0, 0, 0, 0, 0, 0, 0]) == Sum([0, 0, 0, 0, 0, 0, 0]);
    assert Sum([0, 0, 0, 0, 0, 0, 0]) == Sum([0, 0, 0, 0, 0, 0]);
    assert Sum([0, 0, 0, 0, 0, 0]) == Sum([0, 0, 0, 0, 0]);
    assert Sum([0, 0, 0, 0, 0]) == Sum([0, 0, 0, 0]);
    assert Sum([0, 0, 0, 0]) == Sum([0, 0, 0]);
    assert Sum([0, 0, 0]) == Sum([0, 0]);
  }

  // In every reachable state the refusal counters balance.
  lemma RejectsAlwaysBalance(run: seq<Timed>)
    requires IsRun(START, 0, run)
    ensures RejectsBalance(After(START, 0, run))
  {
    StartInv();
    RunKeepsInv(START, 0, run);
  }

  // The time of the latest successful transmission, 0 before the first.
  function LatestSuccess(run: seq<Timed>): int {
    if run == [] then 0
    else
      var last := run[|run| - 1];
      if last.event.Finish? && last.event.ok then last.now else LatestSuccess(run[..|run| - 1])
  }

  lemma {:induction false} RunSnoc(s: System, from: int, run: seq<Timed>)
    requires run != [] && IsRun(s, from, run)
    ensures IsRun(s, from, run[..|run| - 1])
    ensures Valid(After(s, from, run[..|run| - 1]).lock)
    ensures Enabled(After(s, from, run[..|run| - 1]), run[|run| - 1].event)
    ensures After(s, from, run) == Apply(After(s, from, run[..|run| - 1]), run[|run| - 1])
    decreases run
  {
    if |run| == 1 {
      assert run[1..] == [] && run[..0] == [];
    } else {
      var rest := run[1..];
      assert run[..|run| - 1][1..] == rest[..|rest| - 1];
      assert run[..|run| - 1][0] == run[0];
      RunSnoc(Apply(s, run[0]), run[0].now, rest);
    }
  }

  // However the calls interleave, tx_last_us is the stamp of the latest success.
  lemma {:induction false} StampIsLatestSuccess(run: seq<Timed>)
    requires IsRun(START, 0, run)
    ensures After(START, 0, run).lock.lastUs == LatestSuccess(run)
  {
    if run == [] {
    } else {
      RunSnoc(START, 0, run);
      StampIsLatestSuccess(run[..|run| - 1]);
    }
  }

  // Ownership changes hands only through the master setting, or in AUTO after idling.
  lemma OwnerChanges(s: System, t: Timed)
    requires Inv(s) && Enabled(s, t.event) && Apply(s, t).lock.owner != s.lock.owner
    ensures t.event.Master? || (t.event.Check? && s.lock.mode == Auto && Idle(s.lock, t.now))
    ensures t.event.Check? ==>
      Apply(s, t).lock.owner == Index(s.lock.sinks, s.calls[t.event.call].who) >= 0
  {
  }

  // A pinned lock lets exactly the pinned sink through.
  lemma PinnedAdmitsOwner(s: System, who: SinkId, now: int)
    requires Inv(s) && s.lock.mode == Pinned
    ensures Admits(s.lock, who, now) <==> who == s.lock.sinks[s.lock.owner]
  {
    if who == s.lock.sinks[s.lock.owner] {
      assert Index(s.lock.sinks, who) == s.lock.owner;
    }
  }

  // ----- The single-writer window

  // The call that this event admits, if any, is of another sink than a.
  predicate AdmitsOther(s: System, t: Timed, a: SinkId)
    requires Enabled(s, t.event)
  {
    t.event.Check? && s.calls[t.event.call].who != a && Admits(s.lock, s.calls[t.event.call].who, t.now)
  }

  // Along the run no sink other than a is admitted up to `until`.
  ghost predicate OnlyAdmits(s: System, from: int, run: seq<Timed>, a: SinkId, until: int)
    requires IsRun(s, from, run)
    decreases run
  {
    if run == [] then true
    else
      && (AdmitsOther(s, run[0], a) ==> run[0].now > until)
      && OnlyAdmits(Apply(s, run[0]), run[0].now, run[1..], a, until)
  }

  predicate NoMaster(run: seq<Timed>) {
    forall i :: 0 <= i < |run| ==> !run[i].event.Master?
  }

  lemma IndexStable(xs: seq<SinkId>, a: SinkId, x: SinkId)
    requires a in xs
    ensures Index(xs + [x], a) == Index(xs, a)
  {
    var i := Index(xs, a);
    assert (xs + [x])[..i] == xs[..i];
    IndexUnique(xs + [x], a, i);
  }

  lemma {:induction false} LateAdmissions(s: System, from: int, run: seq<Timed>, a: SinkId, until: int)
    requires IsRun(s, from, run) && from > until
    ensures OnlyAdmits(s, from, run, a, until)
    decreases run
  {
    if run == [] {
    } else {
      LateAdmissions(Apply(s, run[0]), run[0].now, run[1..], a, until);
    }
  }

  // While a owns the lock and was heard at t1 or later, everybody else waits out the window,
  // whatever fails, bypasses the lock or is refused meanwhile, in any interleaving.
  lemma {:induction false} OwnerKeepsWindow(s: System, from: int, run: seq<Timed>, a: SinkId, t1: int)
    requires Inv(s) && IsRun(s, from, run) && NoMaster(run)
    requires a in s.lock.sinks && s.lock.owner == Index(s.lock.sinks, a)
    requires t1 <= s.lock.lastUs && t1 <= from
    ensures OnlyAdmits(s, from, run, a, t1 + AUTO_IDLE_US)
    decreases run
  {
    if run == [] {
    } else {
      var s1 := Apply(s, run[0]);
      StepKeepsInv(s, run[0]);
      if run[0].event.NewSink? {
        IndexStable(s.lock.sinks, a, run[0].event.sink);
      }
      if AdmitsOther(s, run[0], a) {
        LateAdmissions(s1, run[0].now, run[1..], a, t1 + AUTO_IDLE_US);
      } else {
        OwnerKeepsWindow(s1, run[0].now, run[1..], a, t1);
      }
    }
  }

  // ----- Which interleavings keep the window

  // The sink admitted last along the run, a if there is none.
  ghost function LastAdmitted(s: System, from: int, run: seq<Timed>, a: SinkId): SinkId
    requires IsRun(s, from, run)
    decreases run
  {
    if run == [] then a
    else
      var b := if AdmitsSomebody(s, run[0]) then s.calls[run[0].event.call].who else a;
      LastAdmitted(Apply(s, run[0]), run[0].now, run[1..], b)
  }

  predicate AdmitsSomebody(s: System, t: Timed)
    requires Enabled(s, t.event)
  {
    t.event.Check? && Admits(s.lock, s.calls[t.event.call].who, t.now)
  }

  ghost predicate Owns(s: System, a: SinkId) {
    a in s.lock.sinks && s.lock.owner == Index(s.lock.sinks, a)
  }

  // Without a master setting the owner is always the sink admitted last.
  lemma {:induction false} OwnerIsLastAdmitted(s: System, from: int, run: seq<Timed>, a: SinkId)
    requires Inv(s) && IsRun(s, from, run) && NoMaster(run) && Owns(s, a)
    ensures Inv(After(s, from, run)) && Owns(After(s, from, run), LastAdmitted(s, from, run, a))
    decreases run
  {
    if run == [] {
    } else {
      var s1 := Apply(s, run[0]);
      StepKeepsInv(s, run[0]);
      if run[0].event.NewSink? {
        IndexStable(s.lock.sinks, a, run[0].event.sink);
      }
      OwnerIsLastAdmitted(s1, run[0].now, run[1..],
                          if AdmitsSomebody(s, run[0]) then s.calls[run[0].event.call].who else a);
    }
  }

  // From here on no other sink is admitted until the time given, in any run.
  ghost predicate Guarded(s: System, now: int, a: SinkId, until: int) {
    forall run {:trigger OnlyAdmits(s, now, run, a, until)} ::
      IsRun(s, now, run) && NoMaster(run) ==> OnlyAdmits(s, now, run, a, until)
  }

  lemma {:induction false} FreshNumber(used: set<nat>) returns (n: nat)
    ensures forall c :: c in used ==> c < n
  {
    if used == {} {
      n := 0;
    } else {
      var c :| c in used;
      var m := FreshNumber(used - {c});
      assert used == used - {c} + {c};
      n := if c < m then m else c + 1;
    }
  }

  // An owner is not guarded against itself: a call of b right now is admitted.
  lemma OwnerGetsIn(s: System, now: int, a: SinkId, b: SinkId, until: int)
    requires Inv(s) && Owns(s, b) && b != a && now <= until
    ensures !Guarded(s, now, a, until)
  {
    var call := FreshNumber(s.calls.Keys);
    var t1, t2 := Timed(now, Enter(call, Some(b), true)), Timed(now, Check(call));
    var s1 := Apply(s, t1);
    StepKeepsInv(s, t1);
    StepKeepsInv(s1, t2);
    assert [t1, t2][1..] == [t2] && [t2][1..] == [];
    assert IsRun(s1, now, [t2]);
    assert IsRun(s, now, [t1, t2]);
    assert AdmitsOther(s1, t2, a);
    assert !OnlyAdmits(s1, now, [t2], a, until);
    assert !OnlyAdmits(s, now, [t1, t2], a, until);
  }

  // The state after a sink a was admitted at t0, whatever ran between then and t1 without a master
  // setting, and a success stamped at t1. Nobody else gets in before five seconds have passed, in
  // any further run, if and only if no other sink was the last to be admitted in between.
  lemma SuccessGuardsIff(s: System, call: nat, t0: int, mid: seq<Timed>, t1: int, len: nat, a: SinkId)
    requires Inv(s) && call in s.calls && s.calls[call] == Checking(a) && Admits(s.lock, a, t0)
    requires NoMaster(mid)
    requires IsRun(Apply(s, Timed(t0, Check(call))), t0, mid + [Timed(t1, Finish(call, true, len))])
    ensures var s1 := Apply(s, Timed(t0, Check(call)));
      && IsRun(s1, t0, mid)
      && (Guarded(After(s1, t0, mid + [Timed(t1, Finish(call, true, len))]), t1, a, t1 + AUTO_IDLE_US)
          <==> LastAdmitted(s1, t0, mid, a) == a)
  {
    var check, finish := Timed(t0, Check(call)), Timed(t1, Finish(call, true, len));
    var s1 := Apply(s, check);
    StepKeepsInv(s, check);
    assert (mid + [finish])[..|mid|] == mid;
    RunSnoc(s1, t0, mid + [finish]);
    OwnerIsLastAdmitted(s1, t0, mid, a);
    var s2, b := After(s1, t0, mid), LastAdmitted(s1, t0, mid, a);
    var s3 := Apply(s2, finish);
    StepKeepsInv(s2, finish);
    if b != a {
      OwnerGetsIn(s3, t1, a, b, t1 + AUTO_IDLE_US);
    } else {
      forall run | IsRun(s3, t1, run) && NoMaster(run) ensures OnlyAdmits(s3, t1, run, a, t1 + AUTO_IDLE_US) {
        OwnerKeepsWindow(s3, t1, run, a, t1);
      }
    }
  }

  // No other sink is admitted along the run, though others may be refused, fail or bypass the lock.
  ghost predicate NoneElse(s: System, from: int, run: seq<Timed>, a: SinkId)
    requires IsRun(s, from, run)
    decreases run
  {
    run == [] || (!AdmitsOther(s, run[0], a) && NoneElse(Apply(s, run[0]), run[0].now, run[1..], a))
  }

  // Such overlaps are harmless.
  lemma {:induction false} HarmlessOverlap(s: System, from: int, run: seq<Timed>, a: SinkId)
    requires IsRun(s, from, run) && NoneElse(s, from, run, a)
    ensures LastAdmitted(s, from, run, a) == a
    decreases run
  {
    if run == [] {
    } else {
      HarmlessOverlap(Apply(s, run[0]), run[0].now, run[1..], a);
    }
  }

  // One whole call of sink a: it enters and is admitted at once, then anything may run in which no
  // other sink is admitted -- refused calls, failing and system transmissions, calls of a itself --
  // and it succeeds at t1. Then the window holds, in any further run.
  lemma UndisturbedCallGuards(s: System, from: int, call: nat, a: SinkId, t0: int,
                              mid: seq<Timed>, t1: int, len: nat)
    requires Inv(s) && call !in s.calls && from <= t0 && Admits(s.lock, a, t0) && NoMaster(mid)
    requires var s1 := Apply(s, Timed(t0, Enter(call, Some(a), true)));
             var s2 := Apply(s1, Timed(t0, Check(call)));
             && IsRun(s2, t0, mid) && NoneElse(s2, t0, mid, a)
             && IsRun(s2, t0, mid + [Timed(t1, Finish(call, true, len))])
    ensures var run := [Timed(t0, Enter(call, Some(a), true)), Timed(t0, Check(call))]
                       + (mid + [Timed(t1, Finish(call, true, len))]);
      IsRun(s, from, run) && Guarded(After(s, from, run), t1, a, t1 + AUTO_IDLE_US)
  {
    var enter, check := Timed(t0, Enter(call, Some(a), true)), Timed(t0, Check(call));
    var rest := mid + [Timed(t1, Finish(call, true, len))];
    var s1 := Apply(s, enter);
    StepKeepsInv(s, enter);
    HarmlessOverlap(Apply(s1, check), t0, mid, a);
    SuccessGuardsIff(s1, call, t0, mid, t1, len, a);
    RunTwo(s, from, enter, check, rest);
  }

  lemma RunTwo(s: System, from: int, t: Timed, u: Timed, rest: seq<Timed>)
    requires from <= t.now <= u.now && Valid(s.lock) && Enabled(s, t.event)
    requires Valid(Apply(s, t).lock) && Enabled(Apply(s, t), u.event)
    requires IsRun(Apply(Apply(s, t), u), u.now, rest)
    ensures IsRun(s, from, [t, u] + rest)
    ensures After(s, from, [t, u] + rest) == After(Apply(Apply(s, t), u), u.now, rest)
  {
    hide Apply, Valid, Enabled;
    assert ([t, u] + rest)[1..] == [u] + rest && ([u] + rest)[1..] == rest;
    assert IsRun(Apply(s, t), t.now, [u] + rest);
  }

  // ----- Calls that overlap

  // Sink 2 claims while sink 1's slow transmission still runs, and is admitted once more a
  // microsecond after sink 1's success.
  const OVERLAP: seq<Timed> := [
    Timed(0, NewSink(1, Some("rawuart"))),
    Timed(0, NewSink(2, Some("hmu"))),
    Timed(0, Enter(0, Some(1), true)),
    Timed(0, Check(0)),
    Timed(6_000_000, Enter(1, Some(2), true)),
    Timed(6_000_000, Check(1)),
    Timed(6_000_001, Finish(0, true, 1)),
    Timed(6_000_002, Enter(2, Some(2), true)),
    Timed(6_000_002, Check(2))]

  // The system while the first `n` events of OVERLAP have happened.
  ghost predicate Overlapped(n: nat, s: System) {
    n <= |OVERLAP| && IsRun(START, 0, OVERLAP[..n]) && After(START, 0, OVERLAP[..n]) == s
  }

  function EndTime(from: int, run: seq<Timed>): int {
    if run == [] then from else run[|run| - 1].now
  }

  lemma {:induction false} RunExtend(s: System, from: int, run: seq<Timed>, t: Timed)
    requires IsRun(s, from, run) && EndTime(from, run) <= t.now
    requires Valid(After(s, from, run).lock) && Enabled(After(s, from, run), t.event)
    ensures IsRun(s, from, run + [t])
    ensures After(s, from, run + [t]) == Apply(After(s, from, run), t)
    decreases run
  {
    if run == [] {
      assert run + [t] == [t] && [t][1..] == [];
    } else {
      assert (run + [t])[1..] == run[1..] + [t];
      RunExtend(Apply(s, run[0]), run[0].now, run[1..], t);
    }
  }

  lemma OverlapOrdered(n: nat)
    requires n < |OVERLAP|
    ensures EndTime(0, OVERLAP[..n]) <= OVERLAP[n].now
  {
    if n > 0 {
      assert OVERLAP[..n][n - 1] == OVERLAP[n - 1];
    }
  }

  lemma OverlapStep(n: nat, s: System)
    requires Overlapped(n, s) && n < |OVERLAP| && Inv(s) && Enabled(s, OVERLAP[n].event)
    ensures Overlapped(n + 1, Apply(s, OVERLAP[n])) && Inv(Apply(s, OVERLAP[n]))
  {
    StepKeepsInv(s, OVERLAP[n]);
    OverlapOrdered(n);
    hide Apply, Enabled, Distinct, RejectsBalance, Valid, IsRun, After, EndTime;
    RunExtend(START, 0, OVERLAP[..n], OVERLAP[n]);
    assert OVERLAP[..n] + [OVERLAP[n]] == OVERLAP[..n + 1];
  }

  // Both sinks are attached and nobody owns the lock.
  lemma OverlapAttached() returns (s: System)
    ensures Overlapped(2, s) && Inv(s)
    ensures s == START.(lock := INITIAL.(sinks := [1, 2], ids := ["rawuart", "hmu"]))
  {
    StartInv();
    assert OVERLAP[..0] == [];
    assert Overlapped(0, START);
    OverlapStep(0, START);
    var s1 := Apply(START, OVERLAP[0]);
    assert s1 == START.(lock := INITIAL.(sinks := [1], ids := ["rawuart"]));
    OverlapStep(1, s1);
    s := Apply(s1, OVERLAP[1]);
  }

  // Both calls are sending and sink 2 owns the lock.
  lemma OverlapSending() returns (s: System)
    ensures Overlapped(6, s) && Inv(s)
    ensures s.lock.sinks == [1, 2] && s.lock.owner == 1 && s.lock.mode == Auto
    ensures s.calls == map[0 := Sending(Some(1)), 1 := Sending(Some(2))]
  {
    hide Overlapped, Distinct, RejectsBalance;
    var s2 := OverlapAttached();
    assert Index([1, 2], 1) == 0 && Index([1, 2], 2) == 1;
    OverlapStep(2, s2);
    var s3 := Apply(s2, OVERLAP[2]);
    OverlapStep(3, s3);
    var s4 := Apply(s3, OVERLAP[3]);
    assert s4.lock == s2.lock.(owner := 0) && s4.calls == map[0 := Sending(Some(1))];
    OverlapStep(4, s4);
    var s5 := Apply(s4, OVERLAP[4]);
    OverlapStep(5, s5);
    s := Apply(s5, OVERLAP[5]);
  }

  // Sink 1 has succeeded and a new call of sink 2 waits for its check.
  lemma OverlapChecking() returns (s: System)
    ensures Overlapped(8, s) && Inv(s)
    ensures s.lock.sinks == [1, 2] && s.lock.owner == 1 && 2 in s.calls && s.calls[2] == Checking(2)
  {
    hide Overlapped, Distinct, RejectsBalance;
    var s6 := OverlapSending();
    OverlapStep(6, s6);
    var s7 := Apply(s6, OVERLAP[6]);
    OverlapStep(7, s7);
    s := Apply(s7, OVERLAP[7]);
  }

  // A run from the start in which the other sink is admitted a microsecond after sink 1's success.
  lemma OverlapBreaksWindow()
    ensures IsRun(START, 0, OVERLAP) && NoMaster(OVERLAP)
    ensures IsRun(START, 0, OVERLAP[..6]) && IsRun(START, 0, OVERLAP[..8])
    ensures After(START, 0, OVERLAP[..6]).calls == map[0 := Sending(Some(1)), 1 := Sending(Some(2))]
    ensures OVERLAP[6].event == Finish(0, true, 1) && OVERLAP[8].now == OVERLAP[6].now + 1
    ensures Enabled(After(START, 0, OVERLAP[..8]), OVERLAP[8].event)
    ensures AdmitsOther(After(START, 0, OVERLAP[..8]), OVERLAP[8], 1)
  {
    hide IsRun, After, Apply, Inv, Valid, Enabled, AdmitsOther;
    var s6 := OverlapSending();
    var s8 := OverlapChecking();
    SinkTwoAdmitted(s8);
    OverlapStep(8, s8);
    assert OVERLAP[..9] == OVERLAP;
  }

  lemma SinkTwoAdmitted(s: System)
    requires s.lock.sinks == [1, 2] && s.lock.owner == 1 && 2 in s.calls && s.calls[2] == Checking(2)
    ensures Enabled(s, OVERLAP[8].event) && AdmitsOther(s, OVERLAP[8], 1)
  {
    assert Index([1, 2], 2) == 1;
  }
}
