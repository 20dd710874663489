/** When each client was last heard and what the keepalive tick makes of it, how a session ends, and what
    the counters of the sink count, over every run. */
module HbHeard {
  import opened Bytes
  import opened Crc16
  import opened HbSessions
  import opened HbRuns
  import opened HbFlow

  // ----- Last heard

  // An intact packet of any type from this address.
  predicate HeardFrom(e: Event, ip: u32, port: word) {
    e.PacketIn? && e.ip == ip && e.port == port && |e.data| >= 4 && Accepted(e.data)
  }

  // The time of the latest one, 0 before the first.
  function LastHeard(run: seq<Event>, ip: u32, port: word): int {
    if run == [] then 0
    else if HeardFrom(run[|run| - 1], ip, port) then run[|run| - 1].at
    else LastHeard(run[..|run| - 1], ip, port)
  }

  ghost predicate AllHeard(t: Table, run: seq<Event>) {
    forall i :: 0 <= i < |t.clients| && t.clients[i].connected ==>
      t.clients[i].lastRxUs == LastHeard(run, t.clients[i].ip, t.clients[i].port)
  }

  lemma LastHeardSnoc(run: seq<Event>, e: Event)
    ensures forall ip: u32, port: word {:trigger LastHeard(run + [e], ip, port)} ::
      LastHeard(run + [e], ip, port) == if HeardFrom(e, ip, port) then e.at else LastHeard(run, ip, port)
  {
    assert (run + [e])[..|run|] == run;
  }

  lemma PacketHeard(t: Table, run: seq<Event>, e: Event)
    requires TableValid(t) && AllHeard(t, run) && e.PacketIn?
    ensures AllHeard(Handle(t, e).table, run + [e])
  {
    var u := Handle(t, e).table;
    LastHeardSnoc(run, e);
    if |e.data| < 4 || !Accepted(e.data) {
      assert u.clients == t.clients;
    } else {
      var payload := e.data[2..|e.data| - 2];
      var i := Find(t.clients, e.ip, e.port);
      forall j | 0 <= j < |u.clients| && u.clients[j].connected
        ensures u.clients[j].lastRxUs == LastHeard(run + [e], u.clients[j].ip, u.clients[j].port)
      {
        if e.data[0] == T_CONNECT {
          ConnectSlots(t, e.data[1], payload, e.ip, e.port, e.at, j);
        } else if i >= 0 {
          DispatchSlots(t, i, e.data[0], payload, e.at, j);
          if j != i {
            FindsOwnSlot(t.clients, j);
            FindsOwnSlot(t.clients, i);
          }
        } else {
          assert !Matches(t.clients[j], e.ip, e.port);
        }
      }
    }
  }

  lemma TickOrFanoutHeard(t: Table, run: seq<Event>, e: Event)
    requires TableValid(t) && AllHeard(t, run) && !e.PacketIn?
    ensures AllHeard(Handle(t, e).table, run + [e])
  {
    var u := Handle(t, e).table;
    LastHeardSnoc(run, e);
    forall j | 0 <= j < |u.clients| && u.clients[j].connected
      ensures u.clients[j].lastRxUs == LastHeard(run + [e], u.clients[j].ip, u.clients[j].port)
    {
      match e
      case TimerTick(now) => TickOutcome(t, now, MAX_CLIENTS, j);
      case SourceRx(bytes) => FanoutOutcome(t, bytes, MAX_CLIENTS, j);
    }
  }

  // After every run, what a connected client's slot holds is the time of the latest intact packet
  // from its address, whatever its type.
  lemma {:induction false} HeardIsLatest(run: seq<Event>)
    ensures AllHeard(RunFrom(run).table, run)
  {
    if run == [] {
    } else {
      var init, e := run[..|run| - 1], run[|run| - 1];
      HeardIsLatest(init);
      assert init + [e] == run;
      hide Handle, AllHeard;
      if e.PacketIn? {
        PacketHeard(RunFrom(init).table, init, e);
      } else {
        TickOrFanoutHeard(RunFrom(init).table, init, e);
      }
    }
  }

  // So after every run a tick keeps a connected client exactly if a packet of its was heard within
  // the five seconds before the tick's clock sample and none after it; a client that is kept is sent
  // one keepalive, under its next counter.
  lemma KeptIffHeard(run: seq<Event>, now: int, i: nat)
    requires i < MAX_CLIENTS && RunFrom(run).table.clients[i].connected
    requires var c := RunFrom(run).table.clients[i]; 0 <= LastHeard(run, c.ip, c.port) < TWO64 / 2
    requires 0 <= now < TWO64 / 2
    ensures var c, d := RunFrom(run).table.clients[i], RunFrom(run + [TimerTick(now)]).table.clients[i];
      var sent := SentTo(Handle(RunFrom(run).table, TimerTick(now)).actions, i);
      if now - 5_000_000 <= LastHeard(run, c.ip, c.port) <= now
      then d.connected && d.ip == c.ip && d.port == c.port && d.started == c.started
           && sent == [Sent(i, c.ip, c.port, 2, c.txCounter, [])]
      else d == CLEARED && !d.connected && sent == []
  {
    HeardIsLatest(run);
    RunMore(run, TimerTick(now));
    var t := RunFrom(run).table;
    TickOutcome(t, now, MAX_CLIENTS, i);
    KeepaliveDecision(t.clients[i], now);
  }

  // A client that sends a keepalive stays, if the tick samples the clock within the next five seconds.
  lemma KeepaliveKeeps(run: seq<Event>, cnt: byte, payload: seq<byte>, at: int, now: int, i: nat)
    requires i < MAX_CLIENTS && RunFrom(run).table.clients[i].connected
    requires 0 <= at <= now <= at + 5_000_000 && now < TWO64 / 2
    ensures var c := RunFrom(run).table.clients[i];
      var heard := PacketIn(Packet(2, cnt, payload), c.ip, c.port, at);
      Matches(RunFrom(run + [heard] + [TimerTick(now)]).table.clients[i], c.ip, c.port)
  {
    var t := RunFrom(run).table;
    var c := t.clients[i];
    var heard := PacketIn(Packet(2, cnt, payload), c.ip, c.port, at);
    PacketReadsBack(2, cnt, payload);
    FindsOwnSlot(t.clients, i);
    DispatchSlots(t, i, 2, payload, at, i);
    RunMore(run, heard);
    LastHeardSnoc(run, heard);
    hide Packet, Dispatch, RunFrom;
    KeptIffHeard(run + [heard], now, i);
  }

  // ----- The end of a session

  // A DISCONNECT frees the sender's slot and touches no other, so no slot holds its address.
  lemma DisconnectEnds(t: Table, cnt: byte, payload: seq<byte>, ip: u32, port: word, at: int, j: nat)
    requires TableValid(t) && j < MAX_CLIENTS
    ensures var u := Handle(t, PacketIn(Packet(1, cnt, payload), ip, port, at)).table;
      && |u.clients| == MAX_CLIENTS && !Reachable(u, ip, port)
      && if Matches(t.clients[j], ip, port) then !u.clients[j].connected else u.clients[j] == t.clients[j]
  {
    PacketReadsBack(1, cnt, payload);
    var i := Find(t.clients, ip, port);
    var u := Handle(t, PacketIn(Packet(1, cnt, payload), ip, port, at)).table;
    hide Packet;
    if i >= 0 {
      forall k | 0 <= k < MAX_CLIENTS
        ensures Matches(t.clients[k], ip, port) ==> k == i
        ensures if k == i then !u.clients[k].connected else u.clients[k] == t.clients[k]
      {
        DispatchSlots(t, i, 1, payload, at, k);
        if Matches(t.clients[k], ip, port) {
          FindsOwnSlot(t.clients, k);
        }
      }
    }
  }
}
