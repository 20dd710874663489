/** The HB-RF-ETH session table: four client slots, the packet, keepalive and fanout handlers
    as functions on the table, and the class that performs them in place. */
module HbSessions {
  import opened Bytes
  import opened Crc16

  const MAX_CLIENTS: nat := 4
  const KA_TIMEOUT_US: int := 5_000_000
  const TWO64: int := 0x1_0000_0000_0000_0000

  const T_CONNECT: byte := 0
  const T_DISCONNECT: byte := 1
  const T_KEEPALIVE: byte := 2
  const T_LED: byte := 3
  const T_RESET: byte := 4
  const T_STARTCONN: byte := 5
  const T_STOPCONN: byte := 6
  const T_FRAME: byte := 7

  datatype Client = Client(
    connected: bool, started: bool, ip: u32, port: word,
    endpointId: byte, txCounter: byte, lastRxUs: int)

  const CLEARED: Client := Client(false, false, 0, 0, 0, 0, 0)

  datatype Stats = Stats(
    active: int, connects: u32, disconnects: u32, badCrc: u32, unknownType: u32,
    timeouts: u32, rxFrames: u32, txFrames: u32, droppedNotStarted: u32)

  datatype Table = Table(clients: seq<Client>, stats: Stats)

  const EMPTY: Table :=
    Table([CLEARED, CLEARED, CLEARED, CLEARED], Stats(0, 0, 0, 0, 0, 0, 0, 0, 0))

  // What a handler does to one slot: a session opens, closes, or is assigned a packet to send.
  datatype Action =
    | Opened(slot: nat)
    | Closed(slot: nat)
    | Sent(slot: nat, ip: u32, port: word, kind: byte, cnt: byte, payload: seq<byte>)

  // The new table, the actions in order, and the payloads handed to the bridge.
  datatype Result = Result(table: Table, actions: seq<Action>, forwarded: seq<seq<byte>>)

  // A packet on the wire: type, counter, payload, CRC.
  function Packet(kind: byte, cnt: byte, payload: seq<byte>): seq<byte> {
    [kind, cnt] + payload + BigEndian(Crc([kind, cnt] + payload))
  }

  function Plus(b: byte, n: nat): byte {
    (b as int + n) % 0x100
  }

  predicate Matches(c: Client, ip: u32, port: word) {
    c.connected && c.ip == ip && c.port == port
  }

  // First slot connected to this address, or -1.
  function Find(cs: seq<Client>, ip: u32, port: word): (i: int)
    ensures -1 <= i < |cs|
    ensures i >= 0 ==> Matches(cs[i], ip, port) && forall j :: 0 <= j < i ==> !Matches(cs[j], ip, port)
    ensures i < 0 ==> forall j :: 0 <= j < |cs| ==> !Matches(cs[j], ip, port)
  {
    if cs == [] then -1
    else
      var n := |cs| - 1;
      var i := Find(cs[..n], ip, port);
      if i >= 0 then i else if Matches(cs[n], ip, port) then n else -1
  }

  // First free slot, or -1.
  function FirstFree(cs: seq<Client>): (i: int)
    ensures -1 <= i < |cs|
    ensures i >= 0 ==> !cs[i].connected && forall j :: 0 <= j < i ==> cs[j].connected
    ensures i < 0 ==> forall j :: 0 <= j < |cs| ==> cs[j].connected
  {
    if cs == [] then -1
    else
      var n := |cs| - 1;
      var i := FirstFree(cs[..n]);
      if i >= 0 then i else if !cs[n].connected then n else -1
  }

  // ----- Changes to one slot

  function SetClient(t: Table, i: nat, c: Client): Table
    requires i < |t.clients|
  {
    t.(clients := t.clients[i := c])
  }

  function Disconnect(t: Table, i: nat): Table
    requires i < |t.clients|
  {
    if !t.clients[i].connected then t
    else SetClient(t, i, CLEARED).(stats := t.stats.(
           active := t.stats.active - 1, disconnects := Inc(t.stats.disconnects)))
  }

  function Open(t: Table, i: nat, ip: u32, port: word, now: int): Table
    requires i < |t.clients|
  {
    SetClient(t, i, Client(true, false, ip, port, 1, 0, now)).(stats := t.stats.(
      active := t.stats.active + 1, connects := Inc(t.stats.connects)))
  }

  // The slot's counter goes into the packet and advances.
  function Assign(t: Table, i: nat): Table
    requires i < |t.clients|
  {
    var c := t.clients[i];
    SetClient(t, i, c.(txCounter := Plus(c.txCounter, 1)))
  }

  function PacketTo(t: Table, i: nat, kind: byte, payload: seq<byte>): Action
    requires i < |t.clients|
  {
    var c := t.clients[i];
    Sent(i, c.ip, c.port, kind, c.txCounter, payload)
  }

  // ----- Packets

  // Slots below n held by this IP are disconnected.
  function Evict(t: Table, ip: u32, n: nat): (r: Result)
    requires n <= |t.clients|
    ensures |r.table.clients| == |t.clients|
  {
    if n == 0 then Result(t, [], [])
    else
      var r := Evict(t, ip, n - 1);
      var c := r.table.clients[n - 1];
      if c.connected && c.ip == ip then
        Result(Disconnect(r.table, n - 1), r.actions + [Closed(n - 1)], [])
      else r
  }

  // The protocol version of a CONNECT payload and its reply; other payloads get none.
  function Endpoint(c: Client, payload: seq<byte>): byte {
    if payload == [1] || payload == [2, 0] then Plus(c.endpointId, 2)
    else if |payload| == 2 && payload[0] == 2 then payload[1]
    else c.endpointId
  }

  function Reply(c: Client, cnt: byte, payload: seq<byte>): (reply: seq<byte>) {
    if payload == [1] then [1, cnt]
    else if |payload| == 2 && payload[0] == 2 then [2, cnt, c.endpointId]
    else []
  }

  function Welcome(t: Table, i: nat, cnt: byte, payload: seq<byte>, now: int): Result
    requires i < |t.clients| && t.clients[i].connected
  {
    var c := t.clients[i].(started := false, lastRxUs := now,
                           endpointId := Endpoint(t.clients[i], payload));
    var u := SetClient(t, i, c);
    var reply := Reply(c, cnt, payload);
    if reply == [] then Result(u, [], [])
    else
      assert Matches(u.clients[i], c.ip, c.port);
      var k := Find(u.clients, c.ip, c.port);
      Result(Assign(u, k), [PacketTo(u, k, T_CONNECT, reply)], [])
  }

  function Connect(t: Table, cnt: byte, payload: seq<byte>, ip: u32, port: word, now: int): Result {
    var i := Find(t.clients, ip, port);
    if i >= 0 then Welcome(t, i, cnt, payload, now)
    else
      var r := Evict(t, ip, |t.clients|);
      var j := FirstFree(r.table.clients);
      if j < 0 then r
      else
        var w := Welcome(Open(r.table, j, ip, port, now), j, cnt, payload, now);
        Result(w.table, r.actions + [Opened(j)] + w.actions, [])
  }

  // Every packet type but CONNECT, from a client that holds slot i.
  function Dispatch(t: Table, i: nat, kind: byte, payload: seq<byte>, now: int): Result
    requires i < |t.clients| && t.clients[i].connected
  {
    var c := t.clients[i].(lastRxUs := now);
    var u := SetClient(t, i, c);
    if kind == T_DISCONNECT then Result(Disconnect(u, i), [Closed(i)], [])
    else if kind == T_STARTCONN then Result(SetClient(u, i, c.(started := true)), [], [])
    else if kind == T_STOPCONN then Result(SetClient(u, i, c.(started := false)), [], [])
    else if kind == T_FRAME then
      Result(u.(stats := u.stats.(rxFrames := Inc(u.stats.rxFrames))), [], [payload])
    else if kind == T_KEEPALIVE || kind == T_LED || kind == T_RESET then Result(u, [], [])
    else Result(u.(stats := u.stats.(unknownType := Inc(u.stats.unknownType))), [], [])
  }

  function Receive(t: Table, data: seq<byte>, ip: u32, port: word, now: int): Result {
    if |data| < 4 then Result(t, [], [])
    else if !Accepted(data) then
      Result(t.(stats := t.stats.(badCrc := Inc(t.stats.badCrc))), [], [])
    else
      var payload := data[2..|data| - 2];
      if data[0] == T_CONNECT then Connect(t, data[1], payload, ip, port, now)
      else
        var i := Find(t.clients, ip, port);
        if i < 0 then Result(t, [], []) else Dispatch(t, i, data[0], payload, now)
  }

  // ----- Keepalive and fanout, slot by slot

  // The age as the code compares it: the difference taken as an unsigned 64-bit number.
  function Age(now: int, lastRx: int): int {
    (now - lastRx) % TWO64
  }

  predicate Expired(c: Client, now: int) {
    Age(now, c.lastRxUs) > KA_TIMEOUT_US
  }

  function TickSlot(t: Table, i: nat, now: int): Result
    requires i < |t.clients|
  {
    var c := t.clients[i];
    if !c.connected then Result(t, [], [])
    else if Expired(c, now) then
      Result(Disconnect(t.(stats := t.stats.(timeouts := Inc(t.stats.timeouts))), i), [Closed(i)], [])
    else Result(Assign(t, i), [PacketTo(t, i, T_KEEPALIVE, [])], [])
  }

  function Tick(t: Table, now: int, n: nat): (r: Result)
    requires n <= |t.clients|
    ensures |r.table.clients| == |t.clients|
  {
    if n == 0 then Result(t, [], [])
    else
      var r := Tick(t, now, n - 1);
      var s := TickSlot(r.table, n - 1, now);
      Result(s.table, r.actions + s.actions, [])
  }

  function FanoutSlot(t: Table, i: nat, data: seq<byte>): Result
    requires i < |t.clients|
  {
    var c := t.clients[i];
    if !c.connected then Result(t, [], [])
    else if !c.started then
      Result(t.(stats := t.stats.(droppedNotStarted := Inc(t.stats.droppedNotStarted))), [], [])
    else
      Result(Assign(t, i).(stats := t.stats.(txFrames := Inc(t.stats.txFrames))),
             [PacketTo(t, i, T_FRAME, data)], [])
  }

  function Fanout(t: Table, data: seq<byte>, n: nat): (r: Result)
    requires n <= |t.clients|
    ensures |r.table.clients| == |t.clients|
  {
    if n == 0 then Result(t, [], [])
    else
      var r := Fanout(t, data, n - 1);
      var s := FanoutSlot(r.table, n - 1, data);
      Result(s.table, r.actions + s.actions, [])
  }

  // ----- The sink

  class HbSink {
    var clients: array<Client>
    var stats: Stats

    ghost predicate Valid()
      reads this
    {
      clients.Length == MAX_CLIENTS
    }

    function Abs(): Table
      reads this, clients
      requires Valid()
    {
      Table(clients[..], stats)
    }

    constructor ()
      ensures Valid() && fresh(clients) && Abs() == EMPTY
    {
      clients := new Client[MAX_CLIENTS](_ => CLEARED);
      stats := EMPTY.stats;
    }

    method FindClient(ip: u32, port: word) returns (i: int)
      requires Valid()
      ensures i == Find(Abs().clients, ip, port)
    {
      for k := 0 to MAX_CLIENTS
        invariant forall j :: 0 <= j < k ==> !Matches(clients[j], ip, port)
      {
        if clients[k].connected && clients[k].ip == ip && clients[k].port == port {
          return k;
        }
      }
      return -1;
    }

    method ClientDisconnect(i: nat)
      requires Valid() && i < MAX_CLIENTS
      modifies this, clients
      ensures Valid() && clients == old(clients) && Abs() == Disconnect(old(Abs()), i)
    {
      if !clients[i].connected {
        return;
      }
      clients[i] := CLEARED;
      stats := stats.(active := stats.active - 1, disconnects := Inc(stats.disconnects));
    }

    method EvictIp(ip: u32) returns (actions: seq<Action>)
      requires Valid()
      modifies this, clients
      ensures Valid() && clients == old(clients)
      ensures Result(Abs(), actions, []) == Evict(old(Abs()), ip, MAX_CLIENTS)
    {
      actions := [];
      for i := 0 to MAX_CLIENTS
        invariant Valid() && clients == old(clients)
        invariant Result(Abs(), actions, []) == Evict(old(Abs()), ip, i)
      {
        if clients[i].connected && clients[i].ip == ip {
          ClientDisconnect(i);
          actions := actions + [Closed(i)];
        }
      }
    }

    method FindFree() returns (i: int)
      requires Valid()
      ensures i == FirstFree(Abs().clients)
    {
      for k := 0 to MAX_CLIENTS
        invariant forall j :: 0 <= j < k ==> clients[j].connected
      {
        if !clients[k].connected {
          assert !Abs().clients[k].connected;
          assert forall j :: 0 <= j < k ==> Abs().clients[j].connected;
          return k;
        }
      }
      assert forall j :: 0 <= j < |Abs().clients| ==> Abs().clients[j].connected;
      return -1;
    }

    // The counter comes from whichever slot the address search finds; an address that no slot
    // holds gets counter 0, and the slot is given as MAX_CLIENTS.
    method SendTyped(ip: u32, port: word, kind: byte, payload: seq<byte>) returns (a: Action)
      requires Valid()
      modifies clients
      ensures Valid()
      ensures var t, k := old(Abs()), Find(old(Abs()).clients, ip, port);
        if k >= 0 then Abs() == Assign(t, k) && a == PacketTo(t, k, kind, payload)
        else Abs() == t && a == Sent(MAX_CLIENTS, ip, port, kind, 0, payload)
    {
      var k := FindClient(ip, port);
      if k < 0 {
        return Sent(MAX_CLIENTS, ip, port, kind, 0, payload);
      }
      var c := clients[k];
      a := Sent(k, ip, port, kind, c.txCounter, payload);
      clients[k] := c.(txCounter := Plus(c.txCounter, 1));
    }

    method WelcomeClient(i: nat, cnt: byte, payload: seq<byte>, now: int) returns (actions: seq<Action>)
      requires Valid() && i < MAX_CLIENTS && clients[i].connected
      modifies clients
      ensures Valid() && Result(Abs(), actions, []) == Welcome(old(Abs()), i, cnt, payload, now)
    {
      actions := [];
      ghost var t := Abs();
      ghost var g := t.clients[i].(started := false, lastRxUs := now,
                                   endpointId := Endpoint(t.clients[i], payload));
      clients[i] := clients[i].(started := false, lastRxUs := now);
      var c := clients[i];
      if |payload| == 1 && payload[0] == 1 {
        assert payload == [1];
        clients[i] := c.(endpointId := Plus(c.endpointId, 2));
        assert Abs() == SetClient(t, i, g) && Matches(Abs().clients[i], c.ip, c.port);
        var a := SendTyped(c.ip, c.port, T_CONNECT, [1, cnt]);
        actions := [a];
      } else if |payload| == 2 && payload[0] == 2 {
        var clientEp := payload[1];
        assert clientEp == 0 <==> payload == [2, 0];
        if clientEp == 0 {
          clients[i] := c.(endpointId := Plus(c.endpointId, 2));
        } else {
          clients[i] := c.(endpointId := clientEp);
        }
        assert Abs() == SetClient(t, i, g) && Matches(Abs().clients[i], c.ip, c.port);
        var a := SendTyped(c.ip, c.port, T_CONNECT, [2, cnt, clients[i].endpointId]);
        actions := [a];
      } else {
        assert Abs() == SetClient(t, i, g);
      }
    }

    method HandleConnect(cnt: byte, payload: seq<byte>, ip: u32, port: word, now: int)
      returns (actions: seq<Action>)
      requires Valid()
      modifies this, clients
      ensures Valid() && clients == old(clients)
      ensures Result(Abs(), actions, []) == Connect(old(Abs()), cnt, payload, ip, port, now)
    {
      var i := FindClient(ip, port);
      if i >= 0 {
        actions := WelcomeClient(i, cnt, payload, now);
        return;
      }
      actions := EvictIp(ip);
      var j := FindFree();
      if j < 0 {
        return;
      }
      clients[j] := Client(true, false, ip, port, 1, 0, now);
      stats := stats.(active := stats.active + 1, connects := Inc(stats.connects));
      var more := WelcomeClient(j, cnt, payload, now);
      actions := actions + [Opened(j)] + more;
    }

    method HandleOther(i: nat, kind: byte, payload: seq<byte>, now: int)
      returns (actions: seq<Action>, forwarded: seq<seq<byte>>)
      requires Valid() && i < MAX_CLIENTS && clients[i].connected
      modifies this, clients
      ensures Valid() && clients == old(clients)
      ensures Result(Abs(), actions, forwarded) == Dispatch(old(Abs()), i, kind, payload, now)
    {
      actions, forwarded := [], [];
      clients[i] := clients[i].(lastRxUs := now);
      if kind == T_DISCONNECT {
        ClientDisconnect(i);
        actions := [Closed(i)];
      } else if kind == T_STARTCONN {
        clients[i] := clients[i].(started := true);
      } else if kind == T_STOPCONN {
        clients[i] := clients[i].(started := false);
      } else if kind == T_FRAME {
        stats := stats.(rxFrames := Inc(stats.rxFrames));
        forwarded := [payload];
      } else if kind != T_KEEPALIVE && kind != T_LED && kind != T_RESET {
        stats := stats.(unknownType := Inc(stats.unknownType));
      }
    }

    method HandlePacket(data: seq<byte>, ip: u32, port: word, now: int)
      returns (actions: seq<Action>, forwarded: seq<seq<byte>>)
      requires Valid()
      modifies this, clients
      ensures Valid() && clients == old(clients)
      ensures Result(Abs(), actions, forwarded) == Receive(old(Abs()), data, ip, port, now)
    {
      actions, forwarded := [], [];
      if |data| < 4 {
        return;
      }
      var crcCalc := HmuCrc16(data[..|data| - 2]);
      var crcRecv := Join(data[|data| - 2], data[|data| - 1]);
      if crcCalc != crcRecv {
        stats := stats.(badCrc := Inc(stats.badCrc));
        return;
      }
      var kind, cnt, payload := data[0], data[1], data[2..|data| - 2];
      if kind == T_CONNECT {
        actions := HandleConnect(cnt, payload, ip, port, now);
        return;
      }
      var i := FindClient(ip, port);
      if i >= 0 {
        actions, forwarded := HandleOther(i, kind, payload, now);
      }
    }

    method KeepaliveTick(now: int) returns (actions: seq<Action>)
      requires Valid()
      modifies this, clients
      ensures Valid() && clients == old(clients)
      ensures Result(Abs(), actions, []) == Tick(old(Abs()), now, MAX_CLIENTS)
    {
      actions := [];
      for i := 0 to MAX_CLIENTS
        invariant Valid() && clients == old(clients)
        invariant Result(Abs(), actions, []) == Tick(old(Abs()), now, i)
      {
        var more := TickOne(i, now);
        actions := actions + more;
      }
    }

    method TickOne(i: nat, now: int) returns (actions: seq<Action>)
      requires Valid() && i < MAX_CLIENTS
      modifies this, clients
      ensures Valid() && clients == old(clients)
      ensures Result(Abs(), actions, []) == TickSlot(old(Abs()), i, now)
    {
      var c := clients[i];
      if !c.connected {
        return [];
      }
      if (now - c.lastRxUs) % TWO64 > KA_TIMEOUT_US {
        stats := stats.(timeouts := Inc(stats.timeouts));
        ClientDisconnect(i);
        return [Closed(i)];
      }
      clients[i] := c.(txCounter := Plus(c.txCounter, 1));
      return [Sent(i, c.ip, c.port, T_KEEPALIVE, c.txCounter, [])];
    }

    method OnRx(data: seq<byte>) returns (actions: seq<Action>)
      requires Valid()
      modifies this, clients
      ensures Valid() && clients == old(clients)
      ensures Result(Abs(), actions, []) ==
        if data == [] then Result(old(Abs()), [], []) else Fanout(old(Abs()), data, MAX_CLIENTS)
    {
      actions := [];
      if |data| == 0 {
        return;
      }
      for i := 0 to MAX_CLIENTS
        invariant Valid() && clients == old(clients)
        invariant Result(Abs(), actions, []) == Fanout(old(Abs()), data, i)
      {
        var more := FanoutOne(i, data);
        actions := actions + more;
      }
    }

    method FanoutOne(i: nat, data: seq<byte>) returns (actions: seq<Action>)
      requires Valid() && i < MAX_CLIENTS
      modifies this, clients
      ensures Valid() && clients == old(clients)
      ensures Result(Abs(), actions, []) == FanoutSlot(old(Abs()), i, data)
    {
      var c := clients[i];
      if !c.connected {
        return [];
      }
      if !c.started {
        stats := stats.(droppedNotStarted := Inc(stats.droppedNotStarted));
        return [];
      }
      clients[i] := c.(txCounter := Plus(c.txCounter, 1));
      stats := stats.(txFrames := Inc(stats.txFrames));
      return [Sent(i, c.ip, c.port, T_FRAME, c.txCounter, data)];
    }
  }
}
