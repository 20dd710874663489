/** What the session table keeps over every run of packets, keepalive ticks and fanouts. */
module HbRuns {
  import opened Bytes
  import opened Crc16
  import opened HbSessions

  // ----- The table invariant

  function Count(cs: seq<Client>): nat {
    if cs == [] then 0 else Count(cs[..|cs| - 1]) + if cs[|cs| - 1].connected then 1 else 0
  }

  // No two connected slots share an IP, started slots are connected.
  ghost predicate SlotsValid(cs: seq<Client>) {
    && |cs| == MAX_CLIENTS
    && (forall i, j :: 0 <= i < j < |cs| && cs[i].connected && cs[j].connected ==> cs[i].ip != cs[j].ip)
    && (forall i :: 0 <= i < |cs| && cs[i].started ==> cs[i].connected)
  }

  ghost predicate Balanced(t: Table) {
    && t.stats.active == Count(t.clients)
    && (t.stats.connects - t.stats.disconnects - t.stats.active) % TWO32 == 0
  }

  ghost predicate TableValid(t: Table) {
    SlotsValid(t.clients) && Balanced(t)
  }

  lemma {:induction false} CountUpdate(cs: seq<Client>, i: nat, c: Client)
    requires i < |cs|
    ensures Count(cs[i := c])
         == Count(cs) - (if cs[i].connected then 1 else 0) + (if c.connected then 1 else 0)
  {
    var n := |cs| - 1;
    if i == n {
      assert cs[i := c][..n] == cs[..n];
    } else {
      assert cs[i := c][..n] == cs[..n][i := c];
      CountUpdate(cs[..n], i, c);
    }
  }

  lemma DisconnectValid(t: Table, i: nat)
    requires TableValid(t) && i < MAX_CLIENTS
    ensures TableValid(Disconnect(t, i))
  {
    CountUpdate(t.clients, i, CLEARED);
  }

  lemma OpenValid(t: Table, i: nat, ip: u32, port: word, now: int)
    requires TableValid(t) && i < MAX_CLIENTS && !t.clients[i].connected
    requires forall j :: 0 <= j < MAX_CLIENTS && t.clients[j].connected ==> t.clients[j].ip != ip
    ensures TableValid(Open(t, i, ip, port, now))
  {
    CountUpdate(t.clients, i, Open(t, i, ip, port, now).clients[i]);
  }

  // Rewriting a slot without touching its connection.
  lemma RewriteValid(t: Table, i: nat, c: Client)
    requires TableValid(t) && i < MAX_CLIENTS
    requires c.connected == t.clients[i].connected && c.ip == t.clients[i].ip
    requires c.started ==> c.connected
    ensures TableValid(SetClient(t, i, c))
  {
    CountUpdate(t.clients, i, c);
  }

  predicate HeldBy(c: Client, ip: u32) {
    c.connected && c.ip == ip
  }

  // Eviction frees every slot of the IP below n and leaves the others alone.
  lemma {:induction false} EvictValid(t: Table, ip: u32, n: nat)
    requires TableValid(t) && n <= MAX_CLIENTS
    ensures TableValid(Evict(t, ip, n).table)
    ensures forall j :: 0 <= j < MAX_CLIENTS ==>
      Evict(t, ip, n).table.clients[j] == if j < n && HeldBy(t.clients[j], ip) then CLEARED else t.clients[j]
  {
    if n == 0 {
    } else {
      EvictValid(t, ip, n - 1);
      DisconnectValid(Evict(t, ip, n - 1).table, n - 1);
    }
  }

  lemma AssignValid(t: Table, i: nat)
    requires TableValid(t) && i < MAX_CLIENTS
    ensures TableValid(Assign(t, i))
  {
    RewriteValid(t, i, Assign(t, i).clients[i]);
  }

  // The address search of the reply finds the slot that was just greeted.
  lemma FindsOwnSlot(cs: seq<Client>, i: nat)
    requires SlotsValid(cs) && i < MAX_CLIENTS && cs[i].connected
    ensures Find(cs, cs[i].ip, cs[i].port) == i
  {
    var k := Find(cs, cs[i].ip, cs[i].port);
    assert Matches(cs[i], cs[i].ip, cs[i].port);
    assert k >= 0 && cs[k].connected && cs[k].ip == cs[i].ip;
  }

  function Greeted(t: Table, i: nat, payload: seq<byte>, now: int): Client
    requires i < |t.clients|
  {
    t.clients[i].(started := false, lastRxUs := now, endpointId := Endpoint(t.clients[i], payload))
  }

  lemma WelcomeIsOwnSlot(t: Table, i: nat, cnt: byte, payload: seq<byte>, now: int)
    requires TableValid(t) && i < MAX_CLIENTS && t.clients[i].connected
    ensures TableValid(SetClient(t, i, Greeted(t, i, payload, now)))
    ensures TableValid(Welcome(t, i, cnt, payload, now).table)
    ensures var c := Greeted(t, i, payload, now); var u := SetClient(t, i, c);
      Welcome(t, i, cnt, payload, now) == (
        if Reply(c, cnt, payload) == [] then Result(u, [], [])
        else Result(Assign(u, i), [PacketTo(u, i, T_CONNECT, Reply(c, cnt, payload))], []))
  {
    var c := Greeted(t, i, payload, now);
    var u := SetClient(t, i, c);
    RewriteValid(t, i, c);
    FindsOwnSlot(u.clients, i);
    AssignValid(u, i);
  }

  lemma ConnectValid(t: Table, cnt: byte, payload: seq<byte>, ip: u32, port: word, now: int)
    requires TableValid(t)
    ensures TableValid(Connect(t, cnt, payload, ip, port, now).table)
  {
    var i := Find(t.clients, ip, port);
    if i >= 0 {
      WelcomeIsOwnSlot(t, i, cnt, payload, now);
    } else {
      EvictValid(t, ip, MAX_CLIENTS);
      var u := Evict(t, ip, MAX_CLIENTS).table;
      var j := FirstFree(u.clients);
      if j >= 0 {
        OpenValid(u, j, ip, port, now);
        WelcomeIsOwnSlot(Open(u, j, ip, port, now), j, cnt, payload, now);
      }
    }
  }

  lemma ReceiveValid(t: Table, data: seq<byte>, ip: u32, port: word, now: int)
    requires TableValid(t)
    ensures TableValid(Receive(t, data, ip, port, now).table)
  {
    if |data| >= 4 && Accepted(data) {
      var payload := data[2..|data| - 2];
      if data[0] == T_CONNECT {
        ConnectValid(t, data[1], payload, ip, port, now);
      } else {
        var i := Find(t.clients, ip, port);
        if i >= 0 {
          var c := t.clients[i].(lastRxUs := now);
          RewriteValid(t, i, c);
          var u := SetClient(t, i, c);
          DisconnectValid(u, i);
          RewriteValid(u, i, c.(started := true));
          RewriteValid(u, i, c.(started := false));
        }
      }
    }
  }

  lemma {:induction false} TickValid(t: Table, now: int, n: nat)
    requires TableValid(t) && n <= MAX_CLIENTS
    ensures TableValid(Tick(t, now, n).table)
  {
    if n == 0 {
    } else {
      TickValid(t, now, n - 1);
      var u := Tick(t, now, n - 1).table;
      DisconnectValid(u.(stats := u.stats.(timeouts := Inc(u.stats.timeouts))), n - 1);
      AssignValid(u, n - 1);
    }
  }

  lemma {:induction false} FanoutValid(t: Table, data: seq<byte>, n: nat)
    requires TableValid(t) && n <= MAX_CLIENTS
    ensures TableValid(Fanout(t, data, n).table)
  {
    if n == 0 {
    } else {
      FanoutValid(t, data, n - 1);
      AssignValid(Fanout(t, data, n - 1).table, n - 1);
    }
  }

  // ----- Availability

  predicate Reachable(t: Table, ip: u32, port: word) {
    exists i :: 0 <= i < |t.clients| && Matches(t.clients[i], ip, port)
  }

  predicate HoldsSlot(t: Table, ip: u32) {
    exists i :: 0 <= i < |t.clients| && HeldBy(t.clients[i], ip)
  }

  // A CONNECT is refused exactly when all slots are taken and none by the sender's IP
  // (by four different IPs, as the table invariant says); a refusal changes nothing.
  lemma ConnectRefused(t: Table, cnt: byte, payload: seq<byte>, ip: u32, port: word, now: int)
    requires TableValid(t)
    ensures var u := Connect(t, cnt, payload, ip, port, now).table;
      && (!Reachable(u, ip, port) <==> !HoldsSlot(t, ip) && FirstFree(t.clients) < 0)
      && (!Reachable(u, ip, port) ==> u == t)
  {
    var i := Find(t.clients, ip, port);
    if i >= 0 {
      WelcomeIsOwnSlot(t, i, cnt, payload, now);
      var u := Connect(t, cnt, payload, ip, port, now).table;
      assert Matches(u.clients[i], ip, port);
    } else {
      EvictValid(t, ip, MAX_CLIENTS);
      var e := Evict(t, ip, MAX_CLIENTS).table;
      var j := FirstFree(e.clients);
      if j >= 0 {
        OpenValid(e, j, ip, port, now);
        WelcomeIsOwnSlot(Open(e, j, ip, port, now), j, cnt, payload, now);
        var u := Connect(t, cnt, payload, ip, port, now).table;
        assert Matches(u.clients[j], ip, port);
        assert !t.clients[j].connected || t.clients[j].ip == ip;
      } else {
        NothingEvicted(t, ip, MAX_CLIENTS);
      }
    }
  }

  lemma {:induction false} NothingEvicted(t: Table, ip: u32, n: nat)
    requires TableValid(t) && n <= MAX_CLIENTS
    requires forall j :: 0 <= j < n ==> Evict(t, ip, MAX_CLIENTS).table.clients[j].connected
    ensures Evict(t, ip, n) == Result(t, [], [])
  {
    EvictValid(t, ip, MAX_CLIENTS);
    if n == 0 {
    } else {
      NothingEvicted(t, ip, n - 1);
    }
  }

  // ----- Per-session counters

  // The counters sent to slot i since its session opened.
  function SessionCounters(log: seq<Action>, i: nat): seq<byte> {
    if log == [] then []
    else
      var earlier, last := log[..|log| - 1], log[|log| - 1];
      if last.slot != i then SessionCounters(earlier, i)
      else if last.Sent? then SessionCounters(earlier, i) + [last.cnt]
      else []
  }

  // 0, 1, 2, ... modulo 256, n of them.
  function CountingUp(n: nat): seq<byte> {
    seq(n, k requires 0 <= k < n => (k % 0x100) as byte)
  }

  ghost predicate InStep(c: Client, counters: seq<byte>) {
    c.connected ==> counters == CountingUp(|counters|) && |counters| % 0x100 == c.txCounter
  }

  ghost predicate AllInStep(t: Table, log: seq<Action>) {
    forall i :: 0 <= i < |t.clients| ==> InStep(t.clients[i], SessionCounters(log, i))
  }

  lemma {:induction false} LogAppendOther(log: seq<Action>, more: seq<Action>, i: nat)
    requires forall k :: 0 <= k < |more| ==> more[k].slot != i
    ensures SessionCounters(log + more, i) == SessionCounters(log, i)
  {
    if more == [] {
      assert log + more == log;
    } else {
      assert (log + more)[..|log + more| - 1] == log + more[..|more| - 1];
      LogAppendOther(log, more[..|more| - 1], i);
    }
  }

  lemma LogSnoc(log: seq<Action>, a: Action, i: nat)
    ensures SessionCounters(log + [a], i) ==
      if a.slot != i then SessionCounters(log, i)
      else if a.Sent? then SessionCounters(log, i) + [a.cnt]
      else []
  {
    assert (log + [a])[..|log + [a]| - 1] == log;
  }

  lemma SendKeepsStep(c: Client, counters: seq<byte>)
    requires InStep(c, counters) && c.connected
    ensures InStep(c.(txCounter := Plus(c.txCounter, 1)), counters + [c.txCounter])
  {
    assert CountingUp(|counters| + 1) == CountingUp(|counters|) + [c.txCounter];
  }

  lemma AssignInStep(t: Table, log: seq<Action>, i: nat, kind: byte, payload: seq<byte>)
    requires AllInStep(t, log) && i < |t.clients| && t.clients[i].connected
    ensures AllInStep(Assign(t, i), log + [PacketTo(t, i, kind, payload)])
  {
    var a := PacketTo(t, i, kind, payload);
    forall j | 0 <= j < |t.clients|
      ensures InStep(Assign(t, i).clients[j], SessionCounters(log + [a], j))
    {
      LogSnoc(log, a, j);
      if j == i {
        SendKeepsStep(t.clients[i], SessionCounters(log, i));
      }
    }
  }

  lemma CloseInStep(t: Table, log: seq<Action>, i: nat)
    requires AllInStep(t, log) && i < |t.clients|
    ensures AllInStep(Disconnect(t, i), log + [Closed(i)])
  {
    forall j | 0 <= j < |t.clients|
      ensures InStep(Disconnect(t, i).clients[j], SessionCounters(log + [Closed(i)], j))
    {
      LogSnoc(log, Closed(i), j);
    }
  }

  lemma OpenInStep(t: Table, log: seq<Action>, i: nat, ip: u32, port: word, now: int)
    requires AllInStep(t, log) && i < |t.clients|
    ensures AllInStep(Open(t, i, ip, port, now), log + [Opened(i)])
  {
    forall j | 0 <= j < |t.clients|
      ensures InStep(Open(t, i, ip, port, now).clients[j], SessionCounters(log + [Opened(i)], j))
    {
      LogSnoc(log, Opened(i), j);
    }
  }

  lemma WelcomeInStep(t: Table, log: seq<Action>, i: nat, cnt: byte, payload: seq<byte>, now: int)
    requires TableValid(t) && AllInStep(t, log) && i < |t.clients| && t.clients[i].connected
    ensures AllInStep(Welcome(t, i, cnt, payload, now).table,
                      log + Welcome(t, i, cnt, payload, now).actions)
  {
    var c := Greeted(t, i, payload, now);
    var u := SetClient(t, i, c);
    WelcomeIsOwnSlot(t, i, cnt, payload, now);
    assert log + [] == log;
    AssignInStep(u, log, i, T_CONNECT, Reply(c, cnt, payload));
  }

  lemma {:induction false} EvictInStep(t: Table, log: seq<Action>, ip: u32, n: nat)
    requires AllInStep(t, log) && n <= |t.clients|
    ensures AllInStep(Evict(t, ip, n).table, log + Evict(t, ip, n).actions)
  {
    if n == 0 {
      assert log + [] == log;
    } else {
      EvictInStep(t, log, ip, n - 1);
      var r := Evict(t, ip, n - 1);
      assert (log + r.actions) + [Closed(n - 1)] == log + (r.actions + [Closed(n - 1)]);
      CloseInStep(r.table, log + r.actions, n - 1);
    }
  }

  lemma NewSessionInStep(t: Table, log: seq<Action>, j: nat, cnt: byte, payload: seq<byte>,
                         ip: u32, port: word, now: int)
    requires TableValid(t) && AllInStep(t, log)
    requires j < MAX_CLIENTS && !t.clients[j].connected
    requires forall k :: 0 <= k < MAX_CLIENTS && t.clients[k].connected ==> t.clients[k].ip != ip
    ensures var w := Welcome(Open(t, j, ip, port, now), j, cnt, payload, now);
      AllInStep(w.table, log + ([Opened(j)] + w.actions))
  {
    var o := Open(t, j, ip, port, now);
    OpenValid(t, j, ip, port, now);
    OpenInStep(t, log, j, ip, port, now);
    WelcomeInStep(o, log + [Opened(j)], j, cnt, payload, now);
    var w := Welcome(o, j, cnt, payload, now);
    assert (log + [Opened(j)]) + w.actions == log + ([Opened(j)] + w.actions);
  }

  lemma ConnectInStep(t: Table, log: seq<Action>, cnt: byte, payload: seq<byte>,
                      ip: u32, port: word, now: int)
    requires TableValid(t) && AllInStep(t, log)
    ensures AllInStep(Connect(t, cnt, payload, ip, port, now).table,
                      log + Connect(t, cnt, payload, ip, port, now).actions)
  {
    hide Welcome, AllInStep;
    var i := Find(t.clients, ip, port);
    if i >= 0 {
      WelcomeInStep(t, log, i, cnt, payload, now);
    } else {
      EvictValid(t, ip, MAX_CLIENTS);
      EvictInStep(t, log, ip, MAX_CLIENTS);
      var e := Evict(t, ip, MAX_CLIENTS);
      var j := FirstFree(e.table.clients);
      if j >= 0 {
        NewSessionInStep(e.table, log + e.actions, j, cnt, payload, ip, port, now);
        var w := Welcome(Open(e.table, j, ip, port, now), j, cnt, payload, now);
        assert (log + e.actions) + ([Opened(j)] + w.actions)
            == log + (e.actions + [Opened(j)] + w.actions);
      }
    }
  }

  lemma ReceiveInStep(t: Table, log: seq<Action>, data: seq<byte>, ip: u32, port: word, now: int)
    requires TableValid(t) && AllInStep(t, log)
    ensures var r := Receive(t, data, ip, port, now);
      AllInStep(r.table, log + r.actions)
  {
    assert log + [] == log;
    if |data| >= 4 && Accepted(data) {
      var payload := data[2..|data| - 2];
      if data[0] == T_CONNECT {
        ConnectInStep(t, log, data[1], payload, ip, port, now);
      } else {
        var i := Find(t.clients, ip, port);
        if i >= 0 {
          CloseInStep(SetClient(t, i, t.clients[i].(lastRxUs := now)), log, i);
        }
      }
    }
  }

  lemma {:induction false} TickInStep(t: Table, log: seq<Action>, now: int, n: nat)
    requires AllInStep(t, log) && n <= |t.clients|
    ensures AllInStep(Tick(t, now, n).table, log + Tick(t, now, n).actions)
  {
    if n == 0 {
      assert log + [] == log;
    } else {
      TickInStep(t, log, now, n - 1);
      var r := Tick(t, now, n - 1);
      var u, i := r.table, n - 1;
      var log1 := log + r.actions;
      var s := TickSlot(u, i, now);
      assert log1 + s.actions == log + (r.actions + s.actions);
      assert log1 + [] == log1;
      CloseInStep(u.(stats := u.stats.(timeouts := Inc(u.stats.timeouts))), log1, i);
      if u.clients[i].connected {
        AssignInStep(u, log1, i, T_KEEPALIVE, []);
      }
    }
  }

  lemma {:induction false} FanoutInStep(t: Table, log: seq<Action>, data: seq<byte>, n: nat)
    requires AllInStep(t, log) && n <= |t.clients|
    ensures AllInStep(Fanout(t, data, n).table, log + Fanout(t, data, n).actions)
  {
    if n == 0 {
      assert log + [] == log;
    } else {
      FanoutInStep(t, log, data, n - 1);
      var r := Fanout(t, data, n - 1);
      var log1 := log + r.actions;
      var s := FanoutSlot(r.table, n - 1, data);
      assert log1 + s.actions == log + (r.actions + s.actions);
      assert log1 + [] == log1;
      if r.table.clients[n - 1].connected {
        AssignInStep(r.table, log1, n - 1, T_FRAME, data);
      }
    }
  }

  // ----- Runs

  datatype Event =
    | PacketIn(data: seq<byte>, ip: u32, port: word, at: int)
    | TimerTick(now: int)
    | SourceRx(bytes: seq<byte>)

  function Handle(t: Table, e: Event): Result
    requires |t.clients| == MAX_CLIENTS
  {
    match e
    case PacketIn(data, ip, port, at) => Receive(t, data, ip, port, at)
    case TimerTick(now) => Tick(t, now, MAX_CLIENTS)
    case SourceRx(bytes) => if bytes == [] then Result(t, [], []) else Fanout(t, bytes, MAX_CLIENTS)
  }

  lemma HandleValid(t: Table, e: Event)
    requires TableValid(t)
    ensures TableValid(Handle(t, e).table)
  {
    match e
    case PacketIn(data, ip, port, at) => ReceiveValid(t, data, ip, port, at);
    case TimerTick(now) => TickValid(t, now, MAX_CLIENTS);
    case SourceRx(bytes) => FanoutValid(t, bytes, MAX_CLIENTS);
  }

  lemma HandleInStep(t: Table, log: seq<Action>, e: Event)
    requires TableValid(t) && AllInStep(t, log)
    ensures AllInStep(Handle(t, e).table, log + Handle(t, e).actions)
  {
    assert log + [] == log;
    match e
    case PacketIn(data, ip, port, at) => ReceiveInStep(t, log, data, ip, port, at);
    case TimerTick(now) => TickInStep(t, log, now, MAX_CLIENTS);
    case SourceRx(bytes) => FanoutInStep(t, log, bytes, MAX_CLIENTS);
  }

  lemma EmptyValid()
    ensures TableValid(EMPTY) && AllInStep(EMPTY, [])
  {
    var cs := EMPTY.clients;
    assert Count(cs[..1]) == 0 && Count(cs[..2]) == 0 by {
      assert cs[..1][..0] == [] && cs[..2][..1] == cs[..1];
    }
    assert cs[..3][..2] == cs[..2] && cs[..3] == cs[..|cs| - 1];
  }

  // The table after a run from the empty one, with everything it did on the way. In every such
  // state the active clients are the connected slots and the connects minus the disconnects, no IP
  // holds two slots, and only connected slots are started.
  ghost function RunFrom(run: seq<Event>): (r: Result)
    ensures TableValid(r.table)
  {
    EmptyValid();
    if run == [] then Result(EMPTY, [], [])
    else
      var r := RunFrom(run[..|run| - 1]);
      var s := Handle(r.table, run[|run| - 1]);
      HandleValid(r.table, run[|run| - 1]);
      Result(s.table, r.actions + s.actions, r.forwarded + s.forwarded)
  }

  // Over every run, the counters of a live session are 0, 1, 2, ... without gap or repeat, CONNECT
  // replies, keepalives and frames counted together.
  lemma {:induction false} CountersNeverSkip(run: seq<Event>)
    ensures AllInStep(RunFrom(run).table, RunFrom(run).actions)
  {
    EmptyValid();
    if run == [] {
    } else {
      var init, last := run[..|run| - 1], run[|run| - 1];
      CountersNeverSkip(init);
      HandleInStep(RunFrom(init).table, RunFrom(init).actions, last);
    }
  }

  // ----- Fanout conservation

  // One slot adds to one of the two counters exactly if it is connected.
  lemma FanoutSlotCounts(t: Table, i: nat, data: seq<byte>, before: int, offered: int)
    requires i < |t.clients|
    requires (t.stats.txFrames + t.stats.droppedNotStarted - before - offered) % TWO32 == 0
    ensures var u := FanoutSlot(t, i, data).table;
      && (u.stats.txFrames + u.stats.droppedNotStarted - before
          - (offered + if t.clients[i].connected then 1 else 0)) % TWO32 == 0
      && u.clients[i + 1..] == t.clients[i + 1..]
  {
  }

  lemma {:induction false} FanoutCounts(t: Table, data: seq<byte>, n: nat)
    requires n <= |t.clients|
    ensures Fanout(t, data, n).table.clients[n..] == t.clients[n..]
    ensures var s, u := t.stats, Fanout(t, data, n).table.stats;
      (u.txFrames + u.droppedNotStarted - (s.txFrames + s.droppedNotStarted)
       - Count(t.clients[..n])) % TWO32 == 0
  {
    if n == 0 {
    } else {
      FanoutCounts(t, data, n - 1);
      var v := Fanout(t, data, n - 1).table;
      assert v.clients[n - 1] == v.clients[n - 1..][0] == t.clients[n - 1];
      assert v.clients[n..] == v.clients[n - 1..][1..] && t.clients[n..] == t.clients[n - 1..][1..];
      assert t.clients[..n][..n - 1] == t.clients[..n - 1];
      FanoutSlotCounts(v, n - 1, data, t.stats.txFrames + t.stats.droppedNotStarted,
                       Count(t.clients[..n - 1]));
    }
  }

  // Packets and ticks leave the two fanout counters alone.
  lemma WelcomeKeepsFanout(t: Table, i: nat, cnt: byte, payload: seq<byte>, now: int)
    requires i < |t.clients| && t.clients[i].connected
    ensures Welcome(t, i, cnt, payload, now).table.stats == t.stats
  {
  }

  lemma {:induction false} EvictKeepsFanout(t: Table, ip: u32, n: nat)
    requires n <= |t.clients|
    ensures Evict(t, ip, n).table.stats.txFrames == t.stats.txFrames
    ensures Evict(t, ip, n).table.stats.droppedNotStarted == t.stats.droppedNotStarted
  {
    if n == 0 {
    } else {
      EvictKeepsFanout(t, ip, n - 1);
    }
  }

  lemma {:induction false} TickKeepsFanout(t: Table, now: int, n: nat)
    requires n <= |t.clients|
    ensures Tick(t, now, n).table.stats.txFrames == t.stats.txFrames
    ensures Tick(t, now, n).table.stats.droppedNotStarted == t.stats.droppedNotStarted
  {
    if n == 0 {
    } else {
      TickKeepsFanout(t, now, n - 1);
    }
  }

  lemma ReceiveKeepsFanout(t: Table, data: seq<byte>, ip: u32, port: word, now: int)
    ensures Receive(t, data, ip, port, now).table.stats.txFrames == t.stats.txFrames
    ensures Receive(t, data, ip, port, now).table.stats.droppedNotStarted == t.stats.droppedNotStarted
  {
    hide Welcome;
    var i := Find(t.clients, ip, port);
    EvictKeepsFanout(t, ip, |t.clients|);
    if |data| >= 4 && data[0] == T_CONNECT {
      var payload := data[2..|data| - 2];
      if i >= 0 {
        WelcomeKeepsFanout(t, i, data[1], payload, now);
      } else {
        var e := Evict(t, ip, |t.clients|).table;
        var j := FirstFree(e.clients);
        if j >= 0 {
          WelcomeKeepsFanout(Open(e, j, ip, port, now), j, data[1], payload, now);
        }
      }
    }
  }

  function FanoutTotal(t: Table): nat {
    t.stats.txFrames + t.stats.droppedNotStarted
  }

  // The clients a single event offers bytes to.
  function OfferedBy(t: Table, e: Event): nat {
    if e.SourceRx? && e.bytes != [] then Count(t.clients) else 0
  }

  lemma HandleConserved(t: Table, e: Event)
    requires |t.clients| == MAX_CLIENTS
    ensures (FanoutTotal(Handle(t, e).table) - FanoutTotal(t) - OfferedBy(t, e)) % TWO32 == 0
  {
    match e
    case PacketIn(data, ip, port, at) => ReceiveKeepsFanout(t, data, ip, port, at);
    case TimerTick(now) => TickKeepsFanout(t, now, MAX_CLIENTS);
    case SourceRx(bytes) =>
      FanoutCounts(t, bytes, MAX_CLIENTS);
      assert t.clients[..MAX_CLIENTS] == t.clients;
  }

  // The clients present at each fanout of the run, added up.
  ghost function Offered(run: seq<Event>): nat {
    if run == [] then 0
    else Offered(run[..|run| - 1]) + OfferedBy(RunFrom(run[..|run| - 1]).table, run[|run| - 1])
  }

  // Every client connected at a fanout is counted once, as sent to or as not started (mod 2^32).
  lemma {:induction false} FanoutConserved(run: seq<Event>)
    ensures (FanoutTotal(RunFrom(run).table) - Offered(run)) % TWO32 == 0
  {
    hide Handle, OfferedBy;
    if run == [] {
    } else {
      var init := run[..|run| - 1];
      FanoutConserved(init);
      HandleConserved(RunFrom(init).table, run[|run| - 1]);
    }
  }

  // ----- Who is sent what

  function SentTo(actions: seq<Action>, i: nat): seq<Action> {
    if actions == [] then []
    else
      var last := actions[|actions| - 1];
      SentTo(actions[..|actions| - 1], i) + if last.Sent? && last.slot == i then [last] else []
  }

  lemma {:induction false} SentToAppend(a: seq<Action>, b: seq<Action>, i: nat)
    ensures SentTo(a + b, i) == SentTo(a, i) + SentTo(b, i)
  {
    if b == [] {
      assert a + b == a;
    } else {
      assert (a + b)[..|a + b| - 1] == a + b[..|b| - 1];
      SentToAppend(a, b[..|b| - 1], i);
    }
  }

  // What one slot's turn in a tick does to it, and that it does nothing to the others.
  lemma TickSlotOutcome(t: Table, k: nat, now: int, i: nat)
    requires k < |t.clients| && i < |t.clients|
    ensures var s, c := TickSlot(t, k, now), t.clients[i];
      && |s.table.clients| == |t.clients|
      && if i == k && c.connected then
           if Expired(c, now) then s.table.clients[i] == CLEARED && SentTo(s.actions, i) == []
           else s.table.clients[i] == c.(txCounter := Plus(c.txCounter, 1))
                && SentTo(s.actions, i) == [PacketTo(t, i, T_KEEPALIVE, [])]
         else s.table.clients[i] == c && SentTo(s.actions, i) == []
  {
    var s := TickSlot(t, k, now);
    assert SentTo(s.actions, i) ==
      if s.actions != [] && s.actions[0].Sent? && s.actions[0].slot == i then [s.actions[0]] else [];
  }

  // A tick keeps exactly the clients heard within the timeout and sends each one keepalive.
  lemma {:induction false} TickOutcome(t: Table, now: int, n: nat, i: nat)
    requires n <= |t.clients| && i < |t.clients|
    ensures var r, c := Tick(t, now, n), t.clients[i];
      if i < n && c.connected then
        if Expired(c, now) then r.table.clients[i] == CLEARED && SentTo(r.actions, i) == []
        else r.table.clients[i] == c.(txCounter := Plus(c.txCounter, 1))
             && SentTo(r.actions, i) == [PacketTo(t, i, T_KEEPALIVE, [])]
      else r.table.clients[i] == c && SentTo(r.actions, i) == []
    decreases n
  {
    hide TickSlot, Expired, Plus;
    if n > 0 {
      TickOutcome(t, now, n - 1, i);
      var r := Tick(t, now, n - 1);
      TickSlotOutcome(r.table, n - 1, now, i);
      SentToAppend(r.actions, TickSlot(r.table, n - 1, now).actions, i);
    }
  }

  // A client heard no later than the tick's clock sample is kept exactly if that was within
  // the timeout; one heard after the sample is always dropped.
  lemma KeepaliveDecision(c: Client, now: int)
    requires 0 <= now < TWO64 / 2 && 0 <= c.lastRxUs < TWO64 / 2
    ensures Expired(c, now) <==> c.lastRxUs > now || now - c.lastRxUs > KA_TIMEOUT_US
  {
  }

  // A fanout reaches exactly the started clients, each once, with the bytes unchanged.
  lemma {:induction false} FanoutOutcome(t: Table, data: seq<byte>, n: nat, i: nat)
    requires n <= |t.clients| && i < |t.clients|
    ensures var r, c := Fanout(t, data, n), t.clients[i];
      if i < n && c.connected && c.started then
        r.table.clients[i] == c.(txCounter := Plus(c.txCounter, 1))
        && SentTo(r.actions, i) == [PacketTo(t, i, T_FRAME, data)]
      else r.table.clients[i] == c && SentTo(r.actions, i) == []
  {
    if n == 0 {
    } else {
      FanoutOutcome(t, data, n - 1, i);
      var r := Fanout(t, data, n - 1);
      var s := FanoutSlot(r.table, n - 1, data);
      SentToAppend(r.actions, s.actions, i);
      assert SentTo(s.actions, i) ==
        if s.actions != [] && s.actions[0].Sent? && s.actions[0].slot == i then [s.actions[0]] else [];
    }
  }

  // ----- On the wire

  // Every packet sent passes the receiver's CRC test, and reads back as what was sent.
  lemma PacketReadsBack(kind: byte, cnt: byte, payload: seq<byte>)
    ensures var p := Packet(kind, cnt, payload);
      |p| >= 4 && Accepted(p) && p[0] == kind && p[1] == cnt && p[2..|p| - 2] == payload
  {
    var p := Packet(kind, cnt, payload);
    assert p[..|p| - 2] == [kind, cnt] + payload;
  }

  // A packet damaged within sixteen consecutive bits only bumps the CRC error counter.
  lemma DamagedPacketIgnored(t: Table, kind: byte, cnt: byte, payload: seq<byte>, data: seq<byte>,
                             lo: nat, ip: u32, port: word, now: int)
    requires var p := Packet(kind, cnt, payload);
      && |data| == |p| && data != p
      && forall i :: 0 <= i < 8 * |p| && !(lo <= i < lo + 16) ==> Bits(p)[i] == Bits(data)[i]
    ensures Receive(t, data, ip, port, now)
         == Result(t.(stats := t.stats.(badCrc := Inc(t.stats.badCrc))), [], [])
  {
    PacketReadsBack(kind, cnt, payload);
    BurstDetected(Packet(kind, cnt, payload), data, lo);
  }
}
