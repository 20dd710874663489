/** What the statistics of the HB-RF-ETH sink count: the sessions opened and closed, the packets sent and
    handed on, and the packets refused, over every run, modulo 2^32. */
module HbCounters {
  import opened Bytes
  import opened Crc16
  import opened HbSessions
  import opened HbRuns
  import opened HbFlow

  // The actions that a counter of its own stands for.
  datatype What = Openings | Closings | FramesOut

  predicate Is(a: Action, what: What) {
    match what
    case Openings => a.Opened?
    case Closings => a.Closed?
    case FramesOut => a.Sent? && a.kind == 7
  }

  function Tally(actions: seq<Action>, what: What): nat {
    if actions == [] then 0
    else Tally(actions[..|actions| - 1], what) + if Is(actions[|actions| - 1], what) then 1 else 0
  }

  function Counter(s: Stats, what: What): u32 {
    match what
    case Openings => s.connects
    case Closings => s.disconnects
    case FramesOut => s.txFrames
  }

  function Bumped(x: u32, n: nat): u32 {
    Wrap(x + n)
  }

  lemma BumpedTwice(x: u32, a: nat, b: nat)
    ensures Bumped(Bumped(x, a), b) == Bumped(x, a + b) && Bumped(x, 0) == x && Bumped(x, 1) == Inc(x)
  {
  }

  lemma {:induction false} TallyAppend(a: seq<Action>, b: seq<Action>, what: What)
    ensures Tally(a + b, what) == Tally(a, what) + Tally(b, what)
    decreases |b|
  {
    if b == [] {
      assert a + b == a;
    } else {
      assert (a + b)[..|a + b| - 1] == a + b[..|b| - 1];
      TallyAppend(a, b[..|b| - 1], what);
    }
  }

  lemma TallyOne(a: Action, what: What)
    ensures Tally([a], what) == (if Is(a, what) then 1 else 0) && Tally([], what) == 0
  {
    assert [a][..0] == [];
  }

  // The counter moves by the actions.
  ghost predicate Tallied(t: Table, r: Result, what: What) {
    Counter(r.table.stats, what) == Bumped(Counter(t.stats, what), Tally(r.actions, what))
  }

  // The counters that stand for no action.
  predicate SameRefusals(s: Stats, u: Stats) {
    && u.badCrc == s.badCrc && u.unknownType == s.unknownType && u.rxFrames == s.rxFrames
  }

  lemma TalliedThen(t: Table, u: Table, a: seq<Action>, b: seq<Action>, v: Table, what: What)
    requires Tallied(t, Result(u, a, []), what) && Tallied(u, Result(v, b, []), what)
    ensures Tallied(t, Result(v, a + b, []), what)
  {
    TallyAppend(a, b, what);
    BumpedTwice(Counter(t.stats, what), Tally(a, what), Tally(b, what));
  }

  lemma ClosedTallied(t: Table, i: nat, what: What)
    requires i < |t.clients| && t.clients[i].connected
    ensures Tallied(t, Result(Disconnect(t, i), [Closed(i)], []), what)
    ensures SameRefusals(t.stats, Disconnect(t, i).stats) && Disconnect(t, i).stats.timeouts == t.stats.timeouts
  {
    TallyOne(Closed(i), what);
    BumpedTwice(Counter(t.stats, what), 0, 0);
  }

  lemma {:induction false} EvictTallied(t: Table, ip: u32, n: nat, what: What)
    requires n <= |t.clients|
    ensures Tallied(t, Evict(t, ip, n), what) && Evict(t, ip, n).forwarded == []
    ensures var u := Evict(t, ip, n).table; SameRefusals(t.stats, u.stats) && u.stats.timeouts == t.stats.timeouts
    decreases n
  {
    BumpedTwice(Counter(t.stats, what), 0, 0);
    if n > 0 {
      hide Tallied, Tally, Bumped;
      EvictTallied(t, ip, n - 1, what);
      var r := Evict(t, ip, n - 1);
      var c := r.table.clients[n - 1];
      assert r == Result(r.table, r.actions, []);
      if c.connected && c.ip == ip {
        ClosedTallied(r.table, n - 1, what);
        TalliedThen(t, r.table, r.actions, [Closed(n - 1)], Disconnect(r.table, n - 1), what);
      }
    }
  }

  lemma WelcomeTallied(t: Table, i: nat, cnt: byte, payload: seq<byte>, now: int, what: What)
    requires i < |t.clients| && t.clients[i].connected
    ensures Tallied(t, Welcome(t, i, cnt, payload, now), what)
    ensures Welcome(t, i, cnt, payload, now).table.stats == t.stats
    ensures Welcome(t, i, cnt, payload, now).forwarded == []
  {
    var r := Welcome(t, i, cnt, payload, now);
    BumpedTwice(Counter(t.stats, what), 0, 0);
    if r.actions != [] {
      TallyOne(r.actions[0], what);
      assert r.actions == [r.actions[0]];
    }
  }

  lemma ConnectTallied(t: Table, cnt: byte, payload: seq<byte>, ip: u32, port: word, now: int, what: What)
    requires |t.clients| == MAX_CLIENTS
    ensures var r := Connect(t, cnt, payload, ip, port, now);
      && Tallied(t, r, what) && r.forwarded == []
      && SameRefusals(t.stats, r.table.stats) && r.table.stats.timeouts == t.stats.timeouts
  {
    hide Welcome, Tallied, Evict;
    var i := Find(t.clients, ip, port);
    if i >= 0 {
      WelcomeTallied(t, i, cnt, payload, now, what);
    } else {
      EvictTallied(t, ip, |t.clients|, what);
      var e := Evict(t, ip, |t.clients|);
      assert e == Result(e.table, e.actions, []);
      var j := FirstFree(e.table.clients);
      if j >= 0 {
        var o := Open(e.table, j, ip, port, now);
        WelcomeTallied(o, j, cnt, payload, now, what);
        var w := Welcome(o, j, cnt, payload, now);
        assert w == Result(w.table, w.actions, []);
        OpenTallied(e.table, j, ip, port, now, what);
        TalliedThen(t, e.table, e.actions, [Opened(j)], o, what);
        TalliedThen(t, o, e.actions + [Opened(j)], w.actions, w.table, what);
      }
    }
  }

  lemma OpenTallied(t: Table, j: nat, ip: u32, port: word, now: int, what: What)
    requires j < |t.clients|
    ensures Tallied(t, Result(Open(t, j, ip, port, now), [Opened(j)], []), what)
    ensures var u := Open(t, j, ip, port, now); SameRefusals(t.stats, u.stats) && u.stats.timeouts == t.stats.timeouts
  {
    TallyOne(Opened(j), what);
    BumpedTwice(Counter(t.stats, what), 0, 0);
  }

  // An intact packet of a type above 7 from a client with a slot.
  predicate UnknownIn(t: Table, e: Event) {
    && e.PacketIn? && |e.data| >= 4 && Accepted(e.data) && e.data[0] > 7
    && Find(t.clients, e.ip, e.port) >= 0
  }

  predicate DamagedIn(e: Event) {
    e.PacketIn? && |e.data| >= 4 && !Accepted(e.data)
  }

  lemma ReceiveTallied(t: Table, data: seq<byte>, ip: u32, port: word, at: int, what: What)
    requires |t.clients| == MAX_CLIENTS
    ensures Tallied(t, Receive(t, data, ip, port, at), what)
    ensures var r, e := Receive(t, data, ip, port, at), PacketIn(data, ip, port, at);
      && r.table.stats.timeouts == t.stats.timeouts
      && r.table.stats.rxFrames == Bumped(t.stats.rxFrames, |r.forwarded|)
      && r.table.stats.badCrc == (if DamagedIn(e) then Inc(t.stats.badCrc) else t.stats.badCrc)
      && r.table.stats.unknownType == (if UnknownIn(t, e) then Inc(t.stats.unknownType) else t.stats.unknownType)
  {
    hide Connect;
    BumpedTwice(Counter(t.stats, what), 0, 0);
    BumpedTwice(t.stats.rxFrames, 0, 0);
    if |data| >= 4 && Accepted(data) {
      var payload := data[2..|data| - 2];
      if data[0] == T_CONNECT {
        ConnectTallied(t, data[1], payload, ip, port, at, what);
      } else {
        var i := Find(t.clients, ip, port);
        if i >= 0 {
          ClosedTallied(SetClient(t, i, t.clients[i].(lastRxUs := at)), i, what);
        }
      }
    }
  }

  lemma {:induction false} TickTallied(t: Table, now: int, n: nat, what: What)
    requires n <= |t.clients|
    ensures Tallied(t, Tick(t, now, n), what) && Tick(t, now, n).forwarded == []
    decreases n
  {
    hide Tallied, TickSlot, Bumped, Tally;
    if n == 0 {
      NothingTallied(t, what);
    } else {
      TickTallied(t, now, n - 1, what);
      var r := Tick(t, now, n - 1);
      var s := TickSlot(r.table, n - 1, now);
      assert r == Result(r.table, r.actions, []);
      TickSlotTallied(r.table, n - 1, now, what);
      TalliedThen(t, r.table, r.actions, s.actions, s.table, what);
    }
  }

  lemma {:induction false} TickCountsTimeouts(t: Table, now: int, n: nat)
    requires n <= |t.clients|
    ensures var r := Tick(t, now, n);
      && SameRefusals(t.stats, r.table.stats)
      && r.table.stats.timeouts == Bumped(t.stats.timeouts, Tally(r.actions, Closings))
    decreases n
  {
    hide TickSlot, Bumped, Tally;
    BumpedTwice(t.stats.timeouts, 0, 0);
    if n == 0 {
      TallyOne(Closed(0), Closings);
    } else {
      TickCountsTimeouts(t, now, n - 1);
      var r := Tick(t, now, n - 1);
      var s := TickSlot(r.table, n - 1, now);
      TickSlotTallied(r.table, n - 1, now, Closings);
      TallyAppend(r.actions, s.actions, Closings);
      BumpedTwice(t.stats.timeouts, Tally(r.actions, Closings), Tally(s.actions, Closings));
    }
  }

  lemma TickSlotTallied(t: Table, i: nat, now: int, what: What)
    requires i < |t.clients|
    ensures var s := TickSlot(t, i, now);
      && s == Result(s.table, s.actions, []) && Tallied(t, s, what)
      && SameRefusals(t.stats, s.table.stats)
      && s.table.stats.timeouts == Bumped(t.stats.timeouts, Tally(s.actions, Closings))
  {
    var s := TickSlot(t, i, now);
    BumpedTwice(Counter(t.stats, what), 0, 0);
    BumpedTwice(t.stats.timeouts, 0, 0);
    if s.actions != [] {
      TallyOne(s.actions[0], what);
      TallyOne(s.actions[0], Closings);
      assert s.actions == [s.actions[0]];
    }
  }

  lemma {:induction false} FanoutTallied(t: Table, data: seq<byte>, n: nat, what: What)
    requires n <= |t.clients|
    ensures Tallied(t, Fanout(t, data, n), what) && Fanout(t, data, n).forwarded == []
    decreases n
  {
    hide Tallied, FanoutSlot, Bumped, Tally;
    if n == 0 {
      NothingTallied(t, what);
    } else {
      FanoutTallied(t, data, n - 1, what);
      var r := Fanout(t, data, n - 1);
      var s := FanoutSlot(r.table, n - 1, data);
      assert r == Result(r.table, r.actions, []);
      FanoutSlotTallied(r.table, n - 1, data, what);
      TalliedThen(t, r.table, r.actions, s.actions, s.table, what);
    }
  }

  lemma NothingTallied(t: Table, what: What)
    ensures Tallied(t, Result(t, [], []), what)
  {
    BumpedTwice(Counter(t.stats, what), 0, 0);
  }

  lemma {:induction false} FanoutRefusesNothing(t: Table, data: seq<byte>, n: nat)
    requires n <= |t.clients|
    ensures var u := Fanout(t, data, n).table; SameRefusals(t.stats, u.stats) && u.stats.timeouts == t.stats.timeouts
    decreases n
  {
    hide FanoutSlot;
    if n > 0 {
      FanoutRefusesNothing(t, data, n - 1);
      FanoutSlotTallied(Fanout(t, data, n - 1).table, n - 1, data, Openings);
    }
  }

  lemma FanoutSlotTallied(t: Table, i: nat, data: seq<byte>, what: What)
    requires i < |t.clients|
    ensures var s := FanoutSlot(t, i, data);
      && s == Result(s.table, s.actions, []) && Tallied(t, s, what)
      && SameRefusals(t.stats, s.table.stats) && s.table.stats.timeouts == t.stats.timeouts
  {
    var s := FanoutSlot(t, i, data);
    BumpedTwice(Counter(t.stats, what), 0, 0);
    if s.actions != [] {
      TallyOne(s.actions[0], what);
      assert s.actions == [s.actions[0]];
    }
  }

  // The sessions that this event closes because they were silent for too long.
  function TimeoutsIn(t: Table, e: Event): nat
    requires |t.clients| == MAX_CLIENTS
  {
    if e.TimerTick? then Tally(Handle(t, e).actions, Closings) else 0
  }

  lemma HandleTallied(t: Table, e: Event, what: What)
    requires |t.clients| == MAX_CLIENTS
    ensures var r := Handle(t, e);
      && Tallied(t, r, what)
      && r.table.stats.rxFrames == Bumped(t.stats.rxFrames, |r.forwarded|)
      && r.table.stats.timeouts == Bumped(t.stats.timeouts, TimeoutsIn(t, e))
      && r.table.stats.badCrc == Bumped(t.stats.badCrc, if DamagedIn(e) then 1 else 0)
      && r.table.stats.unknownType == Bumped(t.stats.unknownType, if UnknownIn(t, e) then 1 else 0)
  {
    hide Receive, Tick, Fanout;
    BumpedTwice(Counter(t.stats, what), 0, 0);
    BumpedTwice(t.stats.rxFrames, 0, 0);
    BumpedTwice(t.stats.timeouts, 0, 0);
    BumpedTwice(t.stats.badCrc, 0, 0);
    BumpedTwice(t.stats.unknownType, 0, 0);
    match e
    case PacketIn(data, ip, port, at) => ReceiveTallied(t, data, ip, port, at, what);
    case TimerTick(now) =>
      TickTallied(t, now, MAX_CLIENTS, what);
      TickCountsTimeouts(t, now, MAX_CLIENTS);
    case SourceRx(bytes) =>
      FanoutTallied(t, bytes, MAX_CLIENTS, what);
      FanoutRefusesNothing(t, bytes, MAX_CLIENTS);
  }

  // The same summed over a run: sessions closed by ticks, damaged packets, and packets of unknown type.
  ghost function TimedOut(run: seq<Event>): nat {
    if run == [] then 0
    else TimedOut(run[..|run| - 1]) + TimeoutsIn(RunFrom(run[..|run| - 1]).table, run[|run| - 1])
  }

  function Damaged(run: seq<Event>): nat {
    if run == [] then 0 else Damaged(run[..|run| - 1]) + if DamagedIn(run[|run| - 1]) then 1 else 0
  }

  ghost function Unknown(run: seq<Event>): nat {
    if run == [] then 0
    else Unknown(run[..|run| - 1]) + if UnknownIn(RunFrom(run[..|run| - 1]).table, run[|run| - 1]) then 1 else 0
  }

  // After every run: sessions opened and closed, and frame packets sent.
  lemma {:induction false} ActionsCounted(run: seq<Event>, what: What)
    ensures Counter(RunFrom(run).table.stats, what) == Tally(RunFrom(run).actions, what) % TWO32
    decreases |run|
  {
    hide Handle, Tally, Counter, Bumped, RunFrom;
    if run == [] {
      NoneCounted(what);
    } else {
      var init, e := run[..|run| - 1], run[|run| - 1];
      var r := RunFrom(init);
      ActionsCounted(init, what);
      RunOneMore(run);
      HandleTallied(r.table, e, what);
      TallyAppend(r.actions, Handle(r.table, e).actions, what);
      BumpedSum(Tally(r.actions, what), Tally(Handle(r.table, e).actions, what));
    }
  }

  // And the payloads handed to the bridge, sessions timed out, damaged packets, and packets of unknown
  // type.
  lemma {:induction false} EventsCounted(run: seq<Event>)
    ensures var r := RunFrom(run);
      && r.table.stats.rxFrames == |r.forwarded| % TWO32
      && r.table.stats.timeouts == TimedOut(run) % TWO32
      && r.table.stats.badCrc == Damaged(run) % TWO32
      && r.table.stats.unknownType == Unknown(run) % TWO32
    decreases |run|
  {
    hide Handle, TimeoutsIn, UnknownIn, DamagedIn, Bumped, RunFrom, Tallied;
    if run == [] {
      NoneCounted(Openings);
    } else {
      var init, e := run[..|run| - 1], run[|run| - 1];
      var r := RunFrom(init);
      EventsCounted(init);
      RunOneMore(run);
      HandleTallied(r.table, e, Openings);
      BumpedSum(|r.forwarded|, |Handle(r.table, e).forwarded|);
      BumpedSum(TimedOut(init), TimeoutsIn(r.table, e));
      BumpedSum(Damaged(init), if DamagedIn(e) then 1 else 0);
      BumpedSum(Unknown(init), if UnknownIn(r.table, e) then 1 else 0);
    }
  }

  lemma NoneCounted(what: What)
    ensures RunFrom([]) == Result(EMPTY, [], []) && Counter(EMPTY.stats, what) == Tally([], what) % TWO32
  {
  }

  lemma BumpedSum(x: nat, n: nat)
    ensures Bumped(x % TWO32, n) == (x + n) % TWO32
  {
    WrapAdds(x, n);
    hide Wrap;
  }

  lemma RunOneMore(run: seq<Event>)
    requires run != []
    ensures var r := RunFrom(run[..|run| - 1]); var s := Handle(r.table, run[|run| - 1]);
      RunFrom(run) == Result(s.table, r.actions + s.actions, r.forwarded + s.forwarded)
  {
    hide Handle;
  }
}
