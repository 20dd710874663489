/** Whole calls of the bridge and its master setting, in terms of the runs of sections: what one call
    does, who may send after a setting, when the lock changes hands, and what the counters count. */
module TxCalls {
  import opened Bytes
  import opened Wrappers
  import opened TxLock
  import opened TxRuns

  // ----- A call is its sections

  // The sections of a call that nothing interrupts, under this number.
  function CallEvents(b: Lock, n: nat, who: Option<SinkId>, len: nat, ready: bool, now: int, sent: bool, doneAt: int)
    : seq<Timed>
  {
    var enter, check := Timed(now, Enter(n, who, ready)), Timed(now, Check(n));
    var finish := Timed(doneAt, Finish(n, sent, len));
    if !ready then [enter]
    else if who.None? then [enter, finish]
    else if Admits(b, who.value, now) then [enter, check, finish]
    else [enter, check]
  }

  lemma OneStep(s: System, from: int, t: Timed)
    requires from <= t.now && Valid(s.lock) && Enabled(s, t.event)
    ensures IsRun(s, from, [t]) && After(s, from, [t]) == Apply(s, t)
  {
    hide Apply, Valid, Enabled;
    assert [t][1..] == [];
  }

  lemma MoreSteps(s: System, from: int, t: Timed, rest: seq<Timed>)
    requires from <= t.now && Valid(s.lock) && Enabled(s, t.event) && IsRun(Apply(s, t), t.now, rest)
    ensures IsRun(s, from, [t] + rest) && After(s, from, [t] + rest) == After(Apply(s, t), t.now, rest)
  {
    hide Apply, Valid, Enabled;
    assert ([t] + rest)[1..] == rest;
  }

  // From every consistent state a whole call leaves the lock as the run of its sections does, and
  // says how that run went: with or without a ready source, with or without a sink, admitted or
  // refused, sent or failed.
  lemma CallIsRun(s: System, from: int, n: nat, who: Option<SinkId>, len: nat, ready: bool, now: int,
                  sent: bool, doneAt: int)
    requires Inv(s) && n !in s.calls && from <= now <= doneAt
    ensures var run := CallEvents(s.lock, n, who, len, ready, now, sent, doneAt);
      var (b, r) := Call(s.lock, who, len, ready, now, sent, doneAt);
      && IsRun(s, from, run) && After(s, from, run).lock == b && After(s, from, run).calls == s.calls
      && (r == NotReady <==> run[|run| - 1].event.Enter?)
      && (r == Locked <==> run[|run| - 1].event.Check?)
      && (r == Ok <==> run[|run| - 1].event == Finish(n, true, len))
      && (r == Failed <==> run[|run| - 1].event == Finish(n, false, len))
  {
    var enter, check := Timed(now, Enter(n, who, ready)), Timed(now, Check(n));
    var finish := Timed(doneAt, Finish(n, sent, len));
    var s1 := Apply(s, enter);
    StepKeepsInv(s, enter);
    assert s1.calls - {n} == s.calls;
    if !ready {
      OneStep(s, from, enter);
    } else if who.None? {
      OneStep(s1, now, finish);
      MoreSteps(s, from, enter, [finish]);
      assert [enter] + [finish] == [enter, finish];
    } else {
      var s2 := Apply(s1, check);
      StepKeepsInv(s1, check);
      if Admits(s.lock, who.value, now) {
        assert s2.calls - {n} == s.calls;
        OneStep(s2, now, finish);
        MoreSteps(s1, now, check, [finish]);
        MoreSteps(s, from, enter, [check] + [finish]);
        assert [enter] + ([check] + [finish]) == [enter, check, finish];
      } else {
        OneStep(s1, now, check);
        MoreSteps(s, from, enter, [check]);
        assert [enter] + [check] == [enter, check];
      }
    }
  }

  lemma {:induction false} RunJoin(s: System, from: int, a: seq<Timed>, b: seq<Timed>)
    requires IsRun(s, from, a) && IsRun(After(s, from, a), EndTime(from, a), b)
    ensures IsRun(s, from, a + b) && After(s, from, a + b) == After(After(s, from, a), EndTime(from, a), b)
    decreases a
  {
    if a == [] {
      assert a + b == b;
    } else {
      assert (a + b)[1..] == a[1..] + b;
      assert EndTime(from, a) == EndTime(a[0].now, a[1..]);
      RunJoin(Apply(s, a[0]), a[0].now, a[1..], b);
    }
  }

  lemma LatestOfCall(run: seq<Timed>, b: Lock, n: nat, who: Option<SinkId>, len: nat, ready: bool, now: int,
                     sent: bool, doneAt: int)
    ensures var more := CallEvents(b, n, who, len, ready, now, sent, doneAt);
      LatestSuccess(run + more) == if more[|more| - 1].event == Finish(n, true, len) then doneAt else LatestSuccess(run)
  {
    var more := CallEvents(b, n, who, len, ready, now, sent, doneAt);
    LatestSnoc(run, more);
    if |more| > 1 && !(more[|more| - 1].event.Finish? && sent) {
      LatestSnoc(run, more[..|more| - 1]);
      if |more| == 3 {
        LatestSnoc(run, more[..1]);
        assert more[..2][..1] == more[..1];
      }
    }
    assert run + [] == run && more[..0] == [];
    assert forall k :: 0 < k <= |more| ==> more[..k][..k - 1] == more[..k - 1] && more[..k][k - 1] == more[k - 1];
  }

  lemma LatestSnoc(run: seq<Timed>, more: seq<Timed>)
    requires more != []
    ensures var last := more[|more| - 1];
      LatestSuccess(run + more)
      == if last.event.Finish? && last.event.ok then last.now else LatestSuccess(run + more[..|more| - 1])
  {
    assert (run + more)[..|run + more| - 1] == run + more[..|more| - 1];
  }

  // So after any run a call moves the stamp exactly if it succeeds, to the end of its transmission.
  lemma CallStamps(run: seq<Timed>, n: nat, who: Option<SinkId>, len: nat, ready: bool, now: int, sent: bool,
                   doneAt: int)
    requires IsRun(START, 0, run) && n !in After(START, 0, run).calls && EndTime(0, run) <= now <= doneAt
    ensures Inv(After(START, 0, run))
    ensures var (b, r) := Call(After(START, 0, run).lock, who, len, ready, now, sent, doneAt);
      b.lastUs == if r == Ok then doneAt else LatestSuccess(run)
  {
    StartInv();
    RunKeepsInv(START, 0, run);
    var s := After(START, 0, run);
    var more := CallEvents(s.lock, n, who, len, ready, now, sent, doneAt);
    CallIsRun(s, EndTime(0, run), n, who, len, ready, now, sent, doneAt);
    hide Call, CallEvents, Apply, IsRun, After;
    RunJoin(START, 0, run, more);
    StampIsLatestSuccess(run + more);
    LatestOfCall(run, s.lock, n, who, len, ready, now, sent, doneAt);
  }

  // And a call of a sink that succeeds keeps everybody else out for five seconds, in every further run.
  lemma CallGuards(s: System, from: int, n: nat, a: SinkId, len: nat, ready: bool, now: int, sent: bool, doneAt: int)
    requires Inv(s) && n !in s.calls && from <= now <= doneAt
    requires Call(s.lock, Some(a), len, ready, now, sent, doneAt).1 == Ok
    ensures Guarded(System(Call(s.lock, Some(a), len, ready, now, sent, doneAt).0, s.calls, s.unknownRejects),
                    doneAt, a, doneAt + 5_000_000)
  {
    var enter, check := Timed(now, Enter(n, Some(a), true)), Timed(now, Check(n));
    var finish := Timed(doneAt, Finish(n, true, len));
    var s1 := Apply(s, enter);
    var s2 := Apply(s1, check);
    StepKeepsInv(s, enter);
    StepKeepsInv(s1, check);
    OneStep(s2, now, finish);
    assert [] + [finish] == [finish];
    assert s2.calls - {n} == s.calls;
    UndisturbedCallGuards(s, from, n, a, now, [], doneAt, len);
    MoreSteps(s1, now, check, [finish]);
    MoreSteps(s, from, enter, [check] + [finish]);
    assert [enter] + ([check] + [finish]) == [enter, check] + ([] + [finish]);
  }

  // ----- Who may send

  // After any run: a pinned lock admits its owner; in AUTO an attached sink is admitted exactly if
  // nobody owns the lock, it owns the lock itself, or the latest success is more than five seconds old.
  lemma HandoverIff(run: seq<Timed>, who: SinkId, at: int)
    requires IsRun(START, 0, run)
    ensures var b := After(START, 0, run).lock;
      && Valid(b)
      && (Admits(b, who, at) <==>
            && who in b.sinks
            && if b.mode == Pinned then who == b.sinks[b.owner]
               else b.owner < 0 || who == b.sinks[b.owner] || at - LatestSuccess(run) > 5_000_000)
  {
    StartInv();
    RunKeepsInv(START, 0, run);
    StampIsLatestSuccess(run);
    var s := After(START, 0, run);
    if s.lock.owner >= 0 {
      OwnerIndex(s);
    }
  }

  lemma OwnerIndex(s: System)
    requires Inv(s) && s.lock.owner >= 0
    ensures Index(s.lock.sinks, s.lock.sinks[s.lock.owner]) == s.lock.owner
  {
  }

  // ----- The master setting

  // An identifier that names an attached sink: from then on, in every run without another setting,
  // that sink alone is admitted, at every time.
  lemma MasterPins(s: System, now: int, id: string, i: nat, from: int, run: seq<Timed>, who: SinkId, at: int)
    requires Inv(s) && id != "" && id != "auto"
    requires i < |s.lock.ids| && s.lock.ids[i] == id && forall j :: 0 <= j < i ==> s.lock.ids[j] != id
    requires NoMaster(run) && IsRun(Apply(s, Timed(now, Master(Some(id)))), from, run)
    ensures Admits(After(Apply(s, Timed(now, Master(Some(id)))), from, run).lock, who, at) <==> who == s.lock.sinks[i]
  {
    var t := Timed(now, Master(Some(id)));
    IndexUnique(s.lock.ids, id, i);
    StepKeepsInv(s, t);
    PinHolds(Apply(s, t), from, run);
    PinnedAdmitsOwner(After(Apply(s, t), from, run), who, at);
  }

  lemma {:induction false} PinHolds(s: System, from: int, run: seq<Timed>)
    requires Inv(s) && s.lock.mode == Pinned && NoMaster(run) && IsRun(s, from, run)
    ensures var q := After(s, from, run);
      && Inv(q) && q.lock.mode == Pinned && q.lock.sinks[q.lock.owner] == s.lock.sinks[s.lock.owner]
    decreases run
  {
    if run != [] {
      StepKeepsInv(s, run[0]);
      PinStep(s, run[0]);
      hide Apply, Enabled;
      PinHolds(Apply(s, run[0]), run[0].now, run[1..]);
    }
  }

  lemma PinStep(s: System, t: Timed)
    requires Inv(s) && s.lock.mode == Pinned && Enabled(s, t.event) && !t.event.Master?
    ensures var q := Apply(s, t).lock;
      q.mode == Pinned && 0 <= q.owner < |q.sinks| && q.sinks[q.owner] == s.lock.sinks[s.lock.owner]
  {
  }

  // No identifier, an empty one or "auto": every attached sink may send at once.
  lemma MasterFrees(s: System, now: int, id: Option<string>, who: SinkId, at: int)
    requires Inv(s) && (id == None || id == Some("") || id == Some("auto"))
    ensures var b := Apply(s, Timed(now, Master(id))).lock;
      b.mode == Auto && (Admits(b, who, at) <==> who in s.lock.sinks)
  {
  }

  // An identifier that no attached sink has changes nothing.
  lemma MasterUnknown(s: System, now: int, id: string)
    requires Inv(s) && id != "" && id != "auto" && id !in s.lock.ids
    ensures Apply(s, Timed(now, Master(Some(id)))) == s
  {
  }

  // A sink attached under a new identifier of up to fifteen characters is the one that the identifier
  // pins. A longer identifier is cut when it is stored: it pins nobody, and its first fifteen characters
  // pin the sink, unless an earlier one has them.
  lemma AttachThenPin(s: System, sink: SinkId, id: string, t1: int, t2: int, who: SinkId, at: int)
    requires Inv(s) && sink !in s.lock.sinks && |s.lock.sinks| < 8
    requires id != "" && id != "auto" && id !in s.lock.ids
    ensures var s1 := Apply(s, Timed(t1, NewSink(sink, Some(id)))); var s2 := Apply(s1, Timed(t2, Master(Some(id))));
      if |id| <= 15 then Admits(s2.lock, who, at) <==> who == sink
      else
        && s2 == s1
        && (id[..15] !in s.lock.ids ==>
              (Admits(Apply(s1, Timed(t2, Master(Some(id[..15])))).lock, who, at) <==> who == sink))
  {
    var attach := Timed(t1, NewSink(sink, Some(id)));
    var s1 := Apply(s, attach);
    StepKeepsInv(s, attach);
    assert s1.lock.ids == s.lock.ids + [StoredId(Some(id))];
    var i := |s.lock.ids|;
    assert forall j :: 0 <= j < i ==> s1.lock.ids[j] == s.lock.ids[j];
    if |id| <= 15 {
      MasterPins(s1, t2, id, i, t2, [], who, at);
    } else {
      MasterUnknown(s1, t2, id);
      if id[..15] !in s.lock.ids {
        MasterPins(s1, t2, id[..15], i, t2, [], who, at);
      }
    }
  }

  // ----- What the counters count

  function BytesSent(run: seq<Timed>): nat {
    if run == [] then 0
    else
      var e := run[|run| - 1].event;
      BytesSent(run[..|run| - 1]) + if e.Finish? && e.ok then e.len else 0
  }

  function UnreadyCalls(run: seq<Timed>): nat {
    if run == [] then 0
    else
      var e := run[|run| - 1].event;
      UnreadyCalls(run[..|run| - 1]) + if e.Enter? && !e.ready then 1 else 0
  }

  // The refusals of a sink while it is attached.
  ghost function Refusals(run: seq<Timed>, a: SinkId): nat
    requires IsRun(START, 0, run)
    decreases run
  {
    if run == [] then 0
    else
      RunSnoc(START, 0, run);
      var s, t := After(START, 0, run[..|run| - 1]), run[|run| - 1];
      Refusals(run[..|run| - 1], a) + if Refuses(s, t, a) then 1 else 0
  }

  predicate Refuses(s: System, t: Timed, a: SinkId)
    requires Enabled(s, t.event)
  {
    t.event.Check? && s.calls[t.event.call].who == a && a in s.lock.sinks && !Admits(s.lock, a, t.now)
  }

  ghost predicate Counted(b: Lock, run: seq<Timed>)
    requires IsRun(START, 0, run) && Valid(b)
  {
    && b.txBytes == BytesSent(run) % TWO32
    && b.droppedNotReady == UnreadyCalls(run) % TWO32
    && (forall i :: 0 <= i < |b.sinks| ==> b.rejected[i] == Refusals(run, b.sinks[i]) % TWO32)
    && (forall i :: |b.sinks| <= i < MAX_SINKS ==> b.rejected[i] == 0)
    && (forall a :: a !in b.sinks ==> Refusals(run, a) == 0)
  }

  // After every run: the bytes of the successful transmissions, the calls that found no ready source,
  // and for each sink its own refusals, modulo 2^32.
  lemma {:induction false} CountersCount(run: seq<Timed>)
    requires IsRun(START, 0, run)
    ensures Inv(After(START, 0, run)) && Counted(After(START, 0, run).lock, run)
    decreases run
  {
    StartInv();
    RunKeepsInv(START, 0, run);
    if run != [] {
      RunSnoc(START, 0, run);
      var init, t := run[..|run| - 1], run[|run| - 1];
      hide Apply, Enabled, Counted, Valid, IsRun, After;
      CountersCount(init);
      CountStep(run);
    } else {
      NothingCounted();
    }
  }

  lemma NothingCounted()
    ensures Counted(INITIAL, [])
  {
  }

  // One section: which sinks are attached, and which refusal is counted.
  lemma RejectedStep(s: System, t: Timed, i: nat)
    requires Inv(s) && Enabled(s, t.event) && i < MAX_SINKS
    ensures Inv(Apply(s, t))
    ensures var q := Apply(s, t).lock;
      && (forall a :: a in s.lock.sinks ==> a in q.sinks)
      && |s.lock.sinks| <= |q.sinks|
      && (i < |s.lock.sinks| ==>
            && q.sinks[i] == s.lock.sinks[i]
            && q.rejected[i] == if Refuses(s, t, s.lock.sinks[i]) then Inc(s.lock.rejected[i]) else s.lock.rejected[i])
      && (i >= |s.lock.sinks| ==> q.rejected[i] == s.lock.rejected[i])
      && (|s.lock.sinks| <= i < |q.sinks| ==> q.sinks[i] !in s.lock.sinks)
  {
    StepKeepsInv(s, t);
    if t.event.Check? && i < |s.lock.sinks| {
      var mine := Index(s.lock.sinks, s.calls[t.event.call].who);
      assert Index(s.lock.sinks, s.lock.sinks[i]) == i;
    }
  }

  lemma RefusalsSnoc(run: seq<Timed>, a: SinkId)
    requires IsRun(START, 0, run) && run != []
    ensures IsRun(START, 0, run[..|run| - 1])
    ensures Enabled(After(START, 0, run[..|run| - 1]), run[|run| - 1].event)
    ensures Refusals(run, a) == Refusals(run[..|run| - 1], a)
      + if Refuses(After(START, 0, run[..|run| - 1]), run[|run| - 1], a) then 1 else 0
  {
    RunSnoc(START, 0, run);
    hide Refuses, Enabled, IsRun, After;
  }

  lemma CountStep(run: seq<Timed>)
    requires IsRun(START, 0, run) && run != [] && IsRun(START, 0, run[..|run| - 1])
    requires Inv(After(START, 0, run[..|run| - 1])) && Inv(After(START, 0, run))
    requires Counted(After(START, 0, run[..|run| - 1]).lock, run[..|run| - 1])
    ensures Counted(After(START, 0, run).lock, run)
  {
    hide IsRun, After, Apply, Enabled, Refuses, Refusals, BytesSent, UnreadyCalls;
    RunSnoc(START, 0, run);
    SumsStep(After(START, 0, run[..|run| - 1]), run[|run| - 1], run);
    forall i | 0 <= i < MAX_SINKS
      ensures i < |After(START, 0, run).lock.sinks| ==>
        After(START, 0, run).lock.rejected[i] == Refusals(run, After(START, 0, run).lock.sinks[i]) % TWO32
      ensures i >= |After(START, 0, run).lock.sinks| ==> After(START, 0, run).lock.rejected[i] == 0
    {
      CountAt(run, i);
    }
    forall a | a !in After(START, 0, run).lock.sinks ensures Refusals(run, a) == 0 {
      NoneElsewhere(run, a);
    }
  }

  lemma CountAt(run: seq<Timed>, i: nat)
    requires IsRun(START, 0, run) && run != [] && IsRun(START, 0, run[..|run| - 1]) && i < MAX_SINKS
    requires Inv(After(START, 0, run[..|run| - 1]))
    requires Counted(After(START, 0, run[..|run| - 1]).lock, run[..|run| - 1])
    ensures var q := After(START, 0, run).lock;
      && |q.rejected| == MAX_SINKS
      && if i < |q.sinks| then q.rejected[i] == Refusals(run, q.sinks[i]) % TWO32 else q.rejected[i] == 0
  {
    hide IsRun, After, Apply, Enabled, Refuses, Refusals, BytesSent, UnreadyCalls, Distinct, RejectsBalance;
    RunSnoc(START, 0, run);
    var s, t := After(START, 0, run[..|run| - 1]), run[|run| - 1];
    RejectedStep(s, t, i);
    if i < |After(START, 0, run).lock.sinks| {
      var a := After(START, 0, run).lock.sinks[i];
      RefusalsSnoc(run, a);
      NotRefused(s, t, a);
      IncMod(Refusals(run[..|run| - 1], a));
    }
  }

  lemma NoneElsewhere(run: seq<Timed>, a: SinkId)
    requires IsRun(START, 0, run) && run != [] && IsRun(START, 0, run[..|run| - 1])
    requires Inv(After(START, 0, run[..|run| - 1]))
    requires Counted(After(START, 0, run[..|run| - 1]).lock, run[..|run| - 1])
    requires a !in After(START, 0, run).lock.sinks
    ensures Refusals(run, a) == 0
  {
    hide IsRun, After, Apply, Enabled, Refuses, Refusals, BytesSent, UnreadyCalls, Distinct, RejectsBalance;
    RunSnoc(START, 0, run);
    var s, t := After(START, 0, run[..|run| - 1]), run[|run| - 1];
    RejectedStep(s, t, 0);
    assert a !in s.lock.sinks;
    RefusalsSnoc(run, a);
    NotRefused(s, t, a);
  }

  lemma NotRefused(s: System, t: Timed, a: SinkId)
    requires Enabled(s, t.event)
    ensures a !in s.lock.sinks ==> !Refuses(s, t, a)
  {
  }

  lemma SumsStep(s: System, t: Timed, run: seq<Timed>)
    requires Valid(s.lock) && Enabled(s, t.event) && run != [] && t == run[|run| - 1]
    requires s.lock.txBytes == BytesSent(run[..|run| - 1]) % TWO32
    requires s.lock.droppedNotReady == UnreadyCalls(run[..|run| - 1]) % TWO32
    ensures Apply(s, t).lock.txBytes == BytesSent(run) % TWO32
    ensures Apply(s, t).lock.droppedNotReady == UnreadyCalls(run) % TWO32
  {
    FieldsStep(s, t);
    hide Apply, Enabled, Wrap, Inc;
    WrapAdds(BytesSent(run[..|run| - 1]), if t.event.Finish? then t.event.len else 0);
    IncMod(UnreadyCalls(run[..|run| - 1]));
  }

  lemma FieldsStep(s: System, t: Timed)
    requires Valid(s.lock) && Enabled(s, t.event)
    ensures Apply(s, t).lock.txBytes ==
      if t.event.Finish? && t.event.ok then Wrap(s.lock.txBytes + t.event.len) else s.lock.txBytes
    ensures Apply(s, t).lock.droppedNotReady ==
      if t.event.Enter? && !t.event.ready then Inc(s.lock.droppedNotReady) else s.lock.droppedNotReady
  {
    hide Wrap, Inc;
  }
}
