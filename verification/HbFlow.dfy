/** Which clients frames flow to, decided by the packets each one sent, and what a CONNECT is
    answered with. */
module HbFlow {
  import opened Bytes
  import opened Crc16
  import opened HbSessions
  import opened HbRuns
  import CrcDistance
  import HmuDecoder
  import HmuStream

  // ----- The latest command of an address

  datatype Command = NoCommand | Connecting | Starting | Stopping

  // What an accepted packet commands about the flow of frames.
  function CommandIn(data: seq<byte>): Command {
    if |data| < 4 || !Accepted(data) then NoCommand
    else if data[0] == 0 then Connecting
    else if data[0] == 5 then Starting
    else if data[0] == 6 then Stopping
    else NoCommand
  }

  function Latest(run: seq<Event>, ip: u32, port: word): Command {
    if run == [] then NoCommand
    else
      var e := run[|run| - 1];
      if e.PacketIn? && e.ip == ip && e.port == port && CommandIn(e.data) != NoCommand
      then CommandIn(e.data)
      else Latest(run[..|run| - 1], ip, port)
  }

  ghost predicate Commanded(t: Table, run: seq<Event>) {
    forall i :: 0 <= i < |t.clients| && t.clients[i].connected ==>
      (t.clients[i].started <==> Latest(run, t.clients[i].ip, t.clients[i].port) == Starting)
  }

  // After a CONNECT every slot is as before, free, or the sender's, heard now and not started.
  lemma ConnectSlots(t: Table, cnt: byte, payload: seq<byte>, ip: u32, port: word, now: int, j: nat)
    requires TableValid(t) && j < MAX_CLIENTS
    ensures |Connect(t, cnt, payload, ip, port, now).table.clients| == MAX_CLIENTS
    ensures var d := Connect(t, cnt, payload, ip, port, now).table.clients[j];
      || !d.connected
      || (d == t.clients[j] && !Matches(d, ip, port))
      || (Matches(d, ip, port) && !d.started && d.lastRxUs == now)
  {
    var i := Find(t.clients, ip, port);
    if i >= 0 {
      WelcomeIsOwnSlot(t, i, cnt, payload, now);
    } else {
      EvictValid(t, ip, MAX_CLIENTS);
      var e := Evict(t, ip, MAX_CLIENTS).table;
      var k := FirstFree(e.clients);
      if k >= 0 {
        OpenValid(e, k, ip, port, now);
        WelcomeIsOwnSlot(Open(e, k, ip, port, now), k, cnt, payload, now);
      }
    }
  }

  // Every other packet leaves the slots of other addresses alone; a DISCONNECT frees its own, any other
  // is heard, and starts or stops it.
  lemma DispatchSlots(t: Table, i: nat, kind: byte, payload: seq<byte>, now: int, j: nat)
    requires TableValid(t) && i < MAX_CLIENTS && j < MAX_CLIENTS && t.clients[i].connected
    ensures |Dispatch(t, i, kind, payload, now).table.clients| == MAX_CLIENTS
    ensures var d := Dispatch(t, i, kind, payload, now).table.clients[j];
      if j != i then d == t.clients[j]
      else
        && (d.connected <==> kind != 1)
        && (d.connected ==>
              && d.ip == t.clients[i].ip && d.port == t.clients[i].port && d.lastRxUs == now
              && d.started == (kind == 5 || (kind != 6 && t.clients[i].started)))
  {
  }

  lemma PacketCommanded(t: Table, run: seq<Event>, e: Event)
    requires TableValid(t) && Commanded(t, run) && e.PacketIn?
    ensures Commanded(Handle(t, e).table, run + [e])
  {
    var u := Handle(t, e).table;
    LatestSnoc(run, e);
    if CommandIn(e.data) == NoCommand && (|e.data| < 4 || !Accepted(e.data)) {
      assert u.clients == t.clients;
    } else {
      var payload := e.data[2..|e.data| - 2];
      var i := Find(t.clients, e.ip, e.port);
      forall j | 0 <= j < |u.clients| && u.clients[j].connected
        ensures u.clients[j].started <==> Latest(run + [e], u.clients[j].ip, u.clients[j].port) == Starting
      {
        if e.data[0] == T_CONNECT {
          ConnectSlots(t, e.data[1], payload, e.ip, e.port, e.at, j);
        } else if i >= 0 {
          DispatchSlots(t, i, e.data[0], payload, e.at, j);
          if j != i {
            FindsOwnSlot(t.clients, j);
            FindsOwnSlot(t.clients, i);
          }
        } else {
          assert !Matches(t.clients[j], e.ip, e.port);
        }
      }
    }
  }

  lemma LatestSnoc(run: seq<Event>, e: Event)
    ensures forall ip: u32, port: word {:trigger Latest(run + [e], ip, port)} ::
      Latest(run + [e], ip, port) ==
        if e.PacketIn? && e.ip == ip && e.port == port && CommandIn(e.data) != NoCommand
        then CommandIn(e.data) else Latest(run, ip, port)
  {
    assert (run + [e])[..|run|] == run;
  }

  lemma TickOrFanoutCommanded(t: Table, run: seq<Event>, e: Event)
    requires TableValid(t) && Commanded(t, run) && !e.PacketIn?
    ensures Commanded(Handle(t, e).table, run + [e])
  {
    var u := Handle(t, e).table;
    LatestSnoc(run, e);
    forall j | 0 <= j < |u.clients| && u.clients[j].connected
      ensures u.clients[j].started <==> Latest(run + [e], u.clients[j].ip, u.clients[j].port) == Starting
    {
      match e
      case TimerTick(now) => TickOutcome(t, now, MAX_CLIENTS, j);
      case SourceRx(bytes) => FanoutOutcome(t, bytes, MAX_CLIENTS, j);
    }
  }

  // After every run, a connected client is started exactly if STARTCONN is the latest of the
  // CONNECT, STARTCONN and STOPCONN packets from its address.
  lemma {:induction false} StartedIffCommanded(run: seq<Event>)
    ensures Commanded(RunFrom(run).table, run)
  {
    if run == [] {
    } else {
      var init, e := run[..|run| - 1], run[|run| - 1];
      StartedIffCommanded(init);
      assert init + [e] == run;
      hide Handle, Commanded;
      if e.PacketIn? {
        PacketCommanded(RunFrom(init).table, init, e);
      } else {
        TickOrFanoutCommanded(RunFrom(init).table, init, e);
      }
    }
  }

  // So source bytes reach a connected client, once and unchanged, exactly if its latest command
  // was STARTCONN; otherwise it gets nothing.
  lemma FramesFlowIffStarted(run: seq<Event>, data: seq<byte>, i: nat)
    requires data != [] && i < MAX_CLIENTS
    ensures var t := RunFrom(run).table; var c := t.clients[i]; var r := Handle(t, SourceRx(data));
      SentTo(r.actions, i) ==
        if c.connected && Latest(run, c.ip, c.port) == Starting
        then [Sent(i, c.ip, c.port, 7, c.txCounter, data)] else []
  {
    StartedIffCommanded(run);
    FanoutOutcome(RunFrom(run).table, data, MAX_CLIENTS, i);
  }

  // ----- The answer to a CONNECT

  predicate VersionOne(payload: seq<byte>) { payload == [1] }
  predicate VersionTwo(payload: seq<byte>) { |payload| == 2 && payload[0] == 2 }

  // An accepted CONNECT of a known version gets one reply that mirrors its counter. A version-two
  // client that names an endpoint keeps it, also in a new session, as after a reboot of the bridge; any
  // other is given the next one, two above its last, where a new session starts from 1.
  lemma ConnectAnswered(t: Table, cnt: byte, payload: seq<byte>, ip: u32, port: word, now: int)
    requires TableValid(t) && (HoldsSlot(t, ip) || FirstFree(t.clients) >= 0)
    requires VersionOne(payload) || VersionTwo(payload)
    ensures var r := Connect(t, cnt, payload, ip, port, now);
      var k := Find(r.table.clients, ip, port);
      && k >= 0 && r.actions != []
      && r.actions[|r.actions| - 1] == Sent(k, ip, port, 0,
           if Find(t.clients, ip, port) >= 0 then t.clients[k].txCounter else 0,
           if VersionOne(payload) then [1, cnt] else [2, cnt, r.table.clients[k].endpointId])
      && r.table.clients[k].endpointId
         == (if VersionTwo(payload) && payload[1] != 0 then payload[1]
             else ((if Find(t.clients, ip, port) >= 0 then t.clients[k].endpointId as int else 1) + 2) % 0x100)
  {
    var i := Find(t.clients, ip, port);
    if i >= 0 {
      WelcomeAnswers(t, i, cnt, payload, now);
    } else {
      EvictValid(t, ip, MAX_CLIENTS);
      var e := Evict(t, ip, MAX_CLIENTS).table;
      var k := FirstFree(e.clients);
      FreeAfterEviction(t, ip);
      OpenValid(e, k, ip, port, now);
      WelcomeAnswers(Open(e, k, ip, port, now), k, cnt, payload, now);
    }
  }

  // A CONNECT of another version opens or restarts the session and is not answered.
  lemma OtherVersionUnanswered(t: Table, cnt: byte, payload: seq<byte>, ip: u32, port: word, now: int, k: nat)
    requires TableValid(t) && (HoldsSlot(t, ip) || FirstFree(t.clients) >= 0)
    requires !VersionOne(payload) && !VersionTwo(payload)
    ensures var r := Connect(t, cnt, payload, ip, port, now); var i := Find(r.table.clients, ip, port);
      && i >= 0 && !r.table.clients[i].started
      && (k < |r.actions| ==> !r.actions[k].Sent?)
  {
    var i := Find(t.clients, ip, port);
    if i >= 0 {
      WelcomeIsOwnSlot(t, i, cnt, payload, now);
      FindsOwnSlot(Welcome(t, i, cnt, payload, now).table.clients, i);
    } else {
      EvictValid(t, ip, MAX_CLIENTS);
      EvictOnlyCloses(t, ip, MAX_CLIENTS);
      var e := Evict(t, ip, MAX_CLIENTS).table;
      var j := FirstFree(e.clients);
      FreeAfterEviction(t, ip);
      OpenValid(e, j, ip, port, now);
      var o := Open(e, j, ip, port, now);
      WelcomeIsOwnSlot(o, j, cnt, payload, now);
      FindsOwnSlot(Welcome(o, j, cnt, payload, now).table.clients, j);
    }
  }

  lemma FreeAfterEviction(t: Table, ip: u32)
    requires TableValid(t) && (HoldsSlot(t, ip) || FirstFree(t.clients) >= 0)
    ensures FirstFree(Evict(t, ip, MAX_CLIENTS).table.clients) >= 0
  {
    EvictValid(t, ip, MAX_CLIENTS);
    var e := Evict(t, ip, MAX_CLIENTS).table;
    var j := if HoldsSlot(t, ip) then (var j :| 0 <= j < |t.clients| && HeldBy(t.clients[j], ip); j)
             else FirstFree(t.clients);
    assert !e.clients[j].connected;
  }

  lemma WelcomeAnswers(t: Table, i: nat, cnt: byte, payload: seq<byte>, now: int)
    requires TableValid(t) && i < MAX_CLIENTS && t.clients[i].connected
    requires VersionOne(payload) || VersionTwo(payload)
    ensures var w := Welcome(t, i, cnt, payload, now); var c := t.clients[i];
      && |w.actions| == 1
      && w.actions[0] == Sent(i, c.ip, c.port, T_CONNECT, c.txCounter,
           if VersionOne(payload) then [1, cnt] else [2, cnt, w.table.clients[i].endpointId])
      && w.table.clients[i].endpointId
         == (if VersionTwo(payload) && payload[1] != 0 then payload[1] else (c.endpointId as int + 2) % 0x100)
      && Find(w.table.clients, c.ip, c.port) == i
  {
    WelcomeIsOwnSlot(t, i, cnt, payload, now);
    FindsOwnSlot(Welcome(t, i, cnt, payload, now).table.clients, i);
  }

  // ----- A keepalive tick that took its clock sample too early

  lemma {:induction false} NobodyEvicted(ip: u32, n: nat)
    requires n <= MAX_CLIENTS
    ensures Evict(EMPTY, ip, n) == Result(EMPTY, [], [])
  {
    if n == 0 {
    } else {
      NobodyEvicted(ip, n - 1);
    }
  }

  // The first client ever gets slot 0.
  lemma FirstConnect(cnt: byte, ip: u32, port: word, now: int)
    ensures var c := Connect(EMPTY, cnt, [1], ip, port, now).table.clients[0];
      c.connected && c.ip == ip && c.port == port && c.lastRxUs == now
  {
    EmptyValid();
    NobodyEvicted(ip, MAX_CLIENTS);
    assert !EMPTY.clients[0].connected && FirstFree(EMPTY.clients) == 0;
    assert Find(EMPTY.clients, ip, port) < 0;
    OpenValid(EMPTY, 0, ip, port, now);
    WelcomeIsOwnSlot(Open(EMPTY, 0, ip, port, now), 0, cnt, [1], now);
  }

  // A client whose CONNECT arrives a microsecond after a tick sampled the clock, but before the tick
  // gets the mutex, is disconnected by that tick.
  lemma HeardAfterSampleDropped(cnt: byte, ip: u32, port: word, now: int)
    ensures var connect := PacketIn(Packet(T_CONNECT, cnt, [1]), ip, port, now + 1);
      var c, d := RunFrom([connect]).table.clients[0], RunFrom([connect, TimerTick(now)]).table.clients[0];
      && c.connected && c.ip == ip && c.port == port && c.lastRxUs == now + 1
      && d == CLEARED
  {
    var connect := PacketIn(Packet(T_CONNECT, cnt, [1]), ip, port, now + 1);
    EmptyValid();
    PacketReadsBack(T_CONNECT, cnt, [1]);
    FirstConnect(cnt, ip, port, now + 1);
    RunMore([], connect);
    RunMore([connect], TimerTick(now));
    assert [] + [connect] == [connect] && [connect] + [TimerTick(now)] == [connect, TimerTick(now)];
    var t := RunFrom([connect]).table;
    assert RunFrom([]).table == EMPTY;
    hide RunFrom, Connect, Tick, Packet;
    assert t == Receive(EMPTY, connect.data, ip, port, now + 1).table;
    TickOutcome(t, now, MAX_CLIENTS, 0);
  }

  // ----- Damage of a few bits

  // A packet of up to 4095 bytes with one, two or three flipped bits only bumps the CRC counter.
  lemma FewBitDamageIgnored(t: Table, kind: byte, cnt: byte, payload: seq<byte>, data: seq<byte>,
                            ip: u32, port: word, now: int)
    requires |data| == |Packet(kind, cnt, payload)| <= 4095
    requires 1 <= CrcDistance.Distance(Packet(kind, cnt, payload), data) <= 3
    ensures Receive(t, data, ip, port, now)
         == Result(t.(stats := t.stats.(badCrc := Inc(t.stats.badCrc))), [], [])
  {
    var p := Packet(kind, cnt, payload);
    PacketReadsBack(kind, cnt, payload);
    if p == data {
      CrcDistance.NotApart(p);
    } else if Accepted(data) {
      CrcDistance.AcceptedFarApart(p, data);
    }
  }

  // ----- The stick's byte stream at a client

  // The payloads of the frame packets among these actions.
  function Frames(actions: seq<Action>): seq<seq<byte>> {
    if actions == [] then []
    else
      var last := actions[|actions| - 1];
      Frames(actions[..|actions| - 1]) + if last.Sent? && last.kind == T_FRAME then [last.payload] else []
  }

  lemma {:induction false} FramesAppend(a: seq<Action>, b: seq<Action>)
    ensures Frames(a + b) == Frames(a) + Frames(b)
  {
    if b == [] {
      assert a + b == a;
    } else {
      assert (a + b)[..|a + b| - 1] == a + b[..|b| - 1];
      FramesAppend(a, b[..|b| - 1]);
    }
  }

  predicate OnlyReplies(actions: seq<Action>) {
    forall k :: 0 <= k < |actions| && actions[k].Sent? ==> actions[k].kind == T_CONNECT
  }

  lemma {:induction false} RepliesAreNoFrames(actions: seq<Action>, i: nat)
    requires OnlyReplies(actions)
    ensures Frames(SentTo(actions, i)) == []
  {
    if actions == [] {
    } else {
      var n := |actions| - 1;
      RepliesAreNoFrames(actions[..n], i);
      FramesAppend(SentTo(actions[..n], i), [actions[n]]);
      OneAction(actions[n]);
      assert SentTo(actions[..n], i) + [] == SentTo(actions[..n], i);
    }
  }

  lemma {:induction false} EvictOnlyCloses(t: Table, ip: u32, n: nat)
    requires n <= |t.clients|
    ensures forall k :: 0 <= k < |Evict(t, ip, n).actions| ==> Evict(t, ip, n).actions[k].Closed?
  {
    if n == 0 {
    } else {
      EvictOnlyCloses(t, ip, n - 1);
    }
  }

  lemma ReceiveOnlyReplies(t: Table, data: seq<byte>, ip: u32, port: word, now: int)
    ensures OnlyReplies(Receive(t, data, ip, port, now).actions)
  {
    EvictOnlyCloses(t, ip, |t.clients|);
  }

  // What one event brings from the source.
  function Delivered(e: Event): seq<seq<byte>> {
    if e.SourceRx? && e.bytes != [] then [e.bytes] else []
  }

  ghost predicate Flowing(t: Table, i: nat) {
    i < |t.clients| && t.clients[i].connected && t.clients[i].started
  }

  // One event hands a started client the source's bytes, if it brings any, and nothing else; if the
  // slot is still started afterwards it is the same client.
  lemma EventFrames(t: Table, e: Event, i: nat)
    requires TableValid(t) && Flowing(t, i)
    ensures Frames(SentTo(Handle(t, e).actions, i)) == Delivered(e)
    ensures var u := Handle(t, e).table;
      Flowing(u, i) ==> u.clients[i].ip == t.clients[i].ip && u.clients[i].port == t.clients[i].port
  {
    match e
    case PacketIn(data, ip, port, at) =>
      ReceiveOnlyReplies(t, data, ip, port, at);
      RepliesAreNoFrames(Receive(t, data, ip, port, at).actions, i);
      PacketKeepsAddress(t, data, ip, port, at, i);
    case TimerTick(now) =>
      TickOutcome(t, now, MAX_CLIENTS, i);
      OneAction(PacketTo(t, i, T_KEEPALIVE, []));
    case SourceRx(bytes) =>
      FanoutOutcome(t, bytes, MAX_CLIENTS, i);
      OneAction(PacketTo(t, i, T_FRAME, bytes));
  }

  lemma OneAction(a: Action)
    ensures Frames([a]) == if a.Sent? && a.kind == T_FRAME then [a.payload] else []
    ensures Frames([]) == []
  {
    assert [a][..0] == [];
  }

  lemma PacketKeepsAddress(t: Table, data: seq<byte>, ip: u32, port: word, now: int, i: nat)
    requires TableValid(t) && Flowing(t, i)
    ensures var u := Receive(t, data, ip, port, now).table;
      Flowing(u, i) ==> u.clients[i].ip == t.clients[i].ip && u.clients[i].port == t.clients[i].port
  {
    if |data| >= 4 && Accepted(data) {
      var payload := data[2..|data| - 2];
      if data[0] == T_CONNECT {
        ConnectSlots(t, data[1], payload, ip, port, now, i);
      } else {
        var k := Find(t.clients, ip, port);
        if k >= 0 {
          DispatchSlots(t, k, data[0], payload, now, i);
        }
      }
    }
  }

  // The pieces in which the source delivered bytes.
  function SourceChunks(run: seq<Event>): seq<seq<byte>> {
    if run == [] then [] else SourceChunks(run[..|run| - 1]) + Delivered(run[|run| - 1])
  }

  // Slot i is started before, during and after the events that follow the run.
  ghost predicate FlowsThrough(run: seq<Event>, more: seq<Event>, i: nat) {
    forall k: nat :: k <= |more| ==> Flowing(RunFrom(run + more[..k]).table, i)
  }

  // The payloads of all frame packets that slot i was sent during the run.
  ghost function SentFrames(run: seq<Event>, i: nat): seq<seq<byte>> {
    Frames(SentTo(RunFrom(run).actions, i))
  }

  // Slot i is started after both runs, for one client.
  ghost predicate SameClient(run: seq<Event>, later: seq<Event>, i: nat) {
    var t, u := RunFrom(run).table, RunFrom(later).table;
    && Flowing(t, i) && Flowing(u, i)
    && t.clients[i].ip == u.clients[i].ip && t.clients[i].port == u.clients[i].port
  }

  // While a client stays started, the frame packets it is sent carry exactly the pieces the source
  // delivered, complete and in order, however packets of others, ticks and evictions interleave.
  lemma {:induction false} StreamReachesClient(run: seq<Event>, more: seq<Event>, i: nat)
    requires FlowsThrough(run, more, i)
    ensures SameClient(run, run + more, i)
    ensures SentFrames(run + more, i) == SentFrames(run, i) + SourceChunks(more)
    decreases |more|
  {
    hide RunFrom, SentFrames, SameClient, Flowing, SourceChunks;
    FlowsAtEnds(run, more, i);
    if more == [] {
      NothingMore(run, more, i);
    } else {
      var init, e := more[..|more| - 1], more[|more| - 1];
      OneEventMore(run, more);
      FlowsEarlier(run, more, i);
      hide FlowsThrough;
      FlowsAtEnds(run, init, i);
      StreamReachesClient(run, init, i);
      FramesMore(run + init, e, i);
      SameClientChain(run, run + init, run + more, i);
      Regroup(SentFrames(run, i), SourceChunks(init), Delivered(e));
    }
  }

  lemma NothingMore(run: seq<Event>, more: seq<Event>, i: nat)
    requires more == [] && Flowing(RunFrom(run).table, i)
    ensures SameClient(run, run + more, i)
    ensures SentFrames(run + more, i) == SentFrames(run, i) + SourceChunks(more)
  {
    hide RunFrom, SentFrames;
    assert run + more == run && SentFrames(run, i) + [] == SentFrames(run, i);
  }

  lemma OneEventMore(run: seq<Event>, more: seq<Event>)
    requires more != []
    ensures (run + more[..|more| - 1]) + [more[|more| - 1]] == run + more
    ensures SourceChunks(more) == SourceChunks(more[..|more| - 1]) + Delivered(more[|more| - 1])
  {
    hide Delivered;
    InitAndLast(run, more);
  }

  lemma InitAndLast<T>(a: seq<T>, b: seq<T>)
    requires b != []
    ensures (a + b[..|b| - 1]) + [b[|b| - 1]] == a + b
  {
    assert b[..|b| - 1] + [b[|b| - 1]] == b;
  }

  lemma Regroup(a: seq<seq<byte>>, b: seq<seq<byte>>, c: seq<seq<byte>>)
    ensures (a + b) + c == a + (b + c)
  {
  }

  lemma SameClientChain(a: seq<Event>, b: seq<Event>, c: seq<Event>, i: nat)
    requires SameClient(a, b, i) && SameClient(b, c, i)
    ensures SameClient(a, c, i)
  {
    hide RunFrom;
  }

  lemma FlowsAtEnds(run: seq<Event>, more: seq<Event>, i: nat)
    requires FlowsThrough(run, more, i)
    ensures Flowing(RunFrom(run).table, i) && Flowing(RunFrom(run + more).table, i)
  {
    assert more[..0] == [] && run + [] == run;
    assert more[..|more|] == more;
    assert Flowing(RunFrom(run + more[..0]).table, i) && Flowing(RunFrom(run + more[..|more|]).table, i);
  }

  // One event more of a run.
  lemma FramesMore(run: seq<Event>, e: Event, i: nat)
    requires Flowing(RunFrom(run).table, i) && Flowing(RunFrom(run + [e]).table, i)
    ensures SameClient(run, run + [e], i)
    ensures SentFrames(run + [e], i)
         == SentFrames(run, i) + Delivered(e)
  {
    RunMore(run, e);
    var r := RunFrom(run);
    assert |r.table.clients| == MAX_CLIENTS;
    hide Handle, RunFrom, TableValid;
    EventFrames(r.table, e, i);
    SentToAppend(r.actions, Handle(r.table, e).actions, i);
    FramesAppend(SentTo(r.actions, i), SentTo(Handle(r.table, e).actions, i));
  }

  lemma FlowsEarlier(run: seq<Event>, more: seq<Event>, i: nat)
    requires FlowsThrough(run, more, i) && more != []
    ensures FlowsThrough(run, more[..|more| - 1], i)
  {
    var n := |more| - 1;
    forall k: nat | k <= n ensures Flowing(RunFrom(run + more[..n][..k]).table, i) {
      assert more[..n][..k] == more[..k];
    }
  }

  lemma RunMore(run: seq<Event>, e: Event)
    ensures RunFrom(run + [e]).actions == RunFrom(run).actions + Handle(RunFrom(run).table, e).actions
    ensures RunFrom(run + [e]).table == Handle(RunFrom(run).table, e).table
  {
    assert (run + [e])[..|run|] == run;
  }

  // So a client that decodes the payloads it gets reads the frames of the stick's own byte stream.
  lemma ClientReadsStickFrames(run: seq<Event>, more: seq<Event>, i: nat)
    requires FlowsThrough(run, more, i)
    ensures var got, before := SentFrames(run + more, i), SentFrames(run, i);
      && before <= got
      && HmuStream.ConsumeChunks(HmuDecoder.INITIAL, got[|before|..]).1
         == HmuStream.Batch(Flatten(SourceChunks(more)))
  {
    StreamReachesClient(run, more, i);
    HmuStream.DecoderRefinesBatchInPieces(SourceChunks(more));
    hide SentFrames, RunFrom, FlowsThrough, SameClient;
    assert (SentFrames(run, i) + SourceChunks(more))[|SentFrames(run, i)|..] == SourceChunks(more);
  }

  // In the other direction a frame packet's payload goes to the bridge, unchanged, exactly if its
  // sender holds a slot.
  lemma FrameForwarded(t: Table, cnt: byte, payload: seq<byte>, ip: u32, port: word, now: int)
    ensures Receive(t, Packet(T_FRAME, cnt, payload), ip, port, now).forwarded
         == if Reachable(t, ip, port) then [payload] else []
  {
    PacketReadsBack(T_FRAME, cnt, payload);
    var i := Find(t.clients, ip, port);
    if i >= 0 {
      assert Matches(t.clients[i], ip, port);
    }
  }
}
