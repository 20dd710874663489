/** The emulated HMUARTLGW module: answers to client requests, the two frame translations,
    and the class that performs them on the sink's state. A request that is sent on to the stick is
    handled in two sections, with the blocking transmission and any other tasks between them. */
module LegacySink {
  import opened Bytes
  import opened HmuFrame
  import P = PendingAcks

  const DST_OS: byte := 0x00
  const DST_APP: byte := 0x01
  const DST_LLMAC: byte := 0x03

  const LLMAC_ACK: byte := 0x01
  const LLMAC_RECV: byte := 0x05
  const LLMAC_SEND: byte := 0x06

  const OS_GET_APP: byte := 0x00
  const OS_GET_FIRMWARE: byte := 0x02
  const OS_CHANGE_APP: byte := 0x03
  const OS_UPDATE_FIRMWARE: byte := 0x05
  const OS_UPDATE_MODE: byte := 0x07
  const OS_GET_CREDITS: byte := 0x08
  const OS_GET_SERIAL: byte := 0x0b

  const APP_SET_HMID: byte := 0x00
  const APP_GET_HMID: byte := 0x01
  const APP_SEND: byte := 0x02
  const APP_RECV: byte := 0x05
  const APP_DEFAULT_HMID: byte := 0x10
  const APP_TRX_GET_MCU_TYPE: byte := 0x12

  const ACK: byte := 0x04
  const ACK_OK: byte := 0x01
  const ACK_INFO: byte := 0x02
  const ACK_MULTIPART: byte := 0x07
  const ACK_EUNKNOWN: byte := 0x84

  const MAX_CLIENTS: nat := 4
  const TRANSLATION_CAP: nat := 256

  // "Co_CPU_App"
  const APP_NAME: seq<byte> := [0x43, 0x6f, 0x5f, 0x43, 0x50, 0x55, 0x5f, 0x41, 0x70, 0x70]

  datatype Host = AwaitingProbe | Fhem | Homegear | HostActive

  datatype Client = Client(active: bool, sockOpen: bool, host: Host)

  // Serial number and firmware version, fixed at start-up.
  datatype Identity = Identity(serial: seq<byte>, fwMajor: byte, fwMinor: byte, fwPatch: byte)

  ghost predicate IdentityValid(id: Identity) {
    |id.serial| == 10
  }

  datatype Sink = Sink(clients: seq<Client>, pending: P.Table, hmid: seq<byte>, rxCnt: byte)

  // The state of the active source and the clock readings.
  datatype Env = Env(connected: bool, bootDone: bool, speaksLegacy: bool, gcNow: int, allocNow: int)

  // Bytes written to a client's socket.
  datatype Out = ToClient(slot: nat, bytes: seq<byte>)

  // What a section leaves to be transmitted: the wire bytes, and the pending entry reserved for them.
  datatype Sending = Nothing | Sending(entry: nat, wire: seq<byte>)

  datatype Turn = Turn(sink: Sink, outs: seq<Out>, toBridge: Sending)

  function SendTo(c: Client, slot: nat, dst: byte, cnt: byte, payload: seq<byte>): seq<Out> {
    if |payload| > MAX_PAYLOAD || !c.sockOpen then []
    else [ToClient(slot, Encode(Frame(dst, cnt, payload)))]
  }

  // ----- Answers to requests

  function OsReply(id: Identity, cmd: byte): seq<byte> {
    if cmd == OS_GET_APP then [0x00] + APP_NAME
    else if cmd == OS_GET_FIRMWARE then
      [ACK, ACK_INFO, 0x01, 0x00, 0x03, id.fwMajor, id.fwMinor, id.fwPatch]
    else if cmd == OS_GET_SERIAL then [ACK, ACK_INFO] + id.serial
    else if cmd == OS_GET_CREDITS then [ACK, ACK_INFO, 0x00]
    else if cmd == OS_UPDATE_FIRMWARE || cmd == OS_UPDATE_MODE then [ACK, ACK_EUNKNOWN]
    else [ACK, ACK_OK]
  }

  function HmidAfter(hmid: seq<byte>, payload: seq<byte>): seq<byte> {
    if |payload| >= 4 && payload[0] == APP_SET_HMID then payload[1..4] else hmid
  }

  function AppReply(hmid: seq<byte>, cmd: byte): seq<byte> {
    if cmd == APP_GET_HMID || cmd == APP_DEFAULT_HMID then [ACK, ACK_MULTIPART, 0x01, 0x01] + hmid
    else if cmd == APP_TRX_GET_MCU_TYPE then [ACK, ACK_EUNKNOWN]
    else [ACK, ACK_OK]
  }

  // The first probe on the OS layer tells what kind of host is connected.
  function Detect(host: Host, dst: byte, cmd: byte): Host {
    if host != AwaitingProbe || dst != DST_OS then host
    else if cmd == OS_GET_APP then Fhem
    else if cmd == OS_CHANGE_APP then Homegear
    else host
  }

  // ----- Translations

  function SendPayload(legacy: seq<byte>): seq<byte>
    requires |legacy| >= 5
  {
    [LLMAC_SEND, 0x80, 0x00, 0x80, legacy[4]] + legacy[5..]
  }

  predicate Translatable(legacy: seq<byte>, env: Env) {
    && 13 <= |legacy| <= TRANSLATION_CAP
    && env.connected && env.bootDone && !env.speaksLegacy
  }

  // An APP_SEND up to the transmission: the new pending table, and what is handed to the bridge.
  function AppSend(pending: P.Table, slot: nat, cnt: byte, legacy: seq<byte>, env: Env): (P.Table, Sending) {
    if !Translatable(legacy, env) then (pending, Nothing)
    else
      var (q, k) := P.Alloc(pending, cnt, slot, env.gcNow, env.allocNow);
      if k < 0 then (q, Nothing)
      else (q, Sending(k, Encode(Frame(DST_LLMAC, cnt, SendPayload(legacy)))))
  }

  function RecvPayload(llmac: seq<byte>): seq<byte>
    requires |llmac| >= 5
  {
    [APP_RECV, 0x01, llmac[3], llmac[4]] + llmac[5..]
  }

  predicate Listening(c: Client) {
    c.active && c.host != AwaitingProbe
  }

  // The frame for the first n client slots.
  function Broadcast(clients: seq<Client>, cnt: byte, payload: seq<byte>, n: nat): seq<Out>
    requires n <= |clients|
  {
    if n == 0 then []
    else
      Broadcast(clients, cnt, payload, n - 1)
      + if Listening(clients[n - 1]) then SendTo(clients[n - 1], n - 1, DST_APP, cnt, payload) else []
  }

  function RouteRecv(s: Sink, llmac: seq<byte>): Turn {
    if |llmac| < 5 || |llmac| - 1 > TRANSLATION_CAP then Turn(s, [], Nothing)
    else Turn(s.(rxCnt := Bump(s.rxCnt)),
              Broadcast(s.clients, s.rxCnt, RecvPayload(llmac), |s.clients|), Nothing)
  }

  function Bump(cnt: byte): byte {
    (cnt as int + 1) % 0x100
  }

  function AckPayload(llmac: seq<byte>): seq<byte> {
    [ACK, if |llmac| >= 2 && llmac[1] == 0x01 then ACK_OK else ACK_EUNKNOWN]
  }

  ghost predicate SinkValid(s: Sink) {
    && |s.clients| == MAX_CLIENTS
    && |s.hmid| == 3
    && forall k :: 0 <= k < P.SLOTS && s.pending[k].active ==> s.pending[k].client < MAX_CLIENTS
  }

  function RouteAck(s: Sink, cnt: byte, llmac: seq<byte>): Turn
    requires SinkValid(s)
  {
    var k := P.FirstWaiting(s.pending, cnt, 0);
    if k < 0 then Turn(s, [], Nothing)
    else
      var slot := s.pending[k].client;
      var u := s.(pending := P.Release(s.pending, k));
      if !s.clients[slot].active then Turn(u, [], Nothing)
      else Turn(u, SendTo(s.clients[slot], slot, DST_APP, cnt, AckPayload(llmac)), Nothing)
  }

  // A frame from the radio stick.
  function OnSourceFrame(s: Sink, f: Frame): Turn
    requires SinkValid(s)
  {
    if f.payload == [] || f.dst != DST_LLMAC then Turn(s, [], Nothing)
    else if f.payload[0] == LLMAC_ACK then RouteAck(s, f.cnt, f.payload)
    else if f.payload[0] == LLMAC_RECV then RouteRecv(s, f.payload)
    else Turn(s, [], Nothing)
  }

  // The host mode is settled before the frame is answered.
  function AfterProbe(s: Sink, slot: nat, f: Frame): Sink
    requires slot < |s.clients| && f.payload != []
  {
    var c := s.clients[slot];
    s.(clients := s.clients[slot := c.(host := Detect(c.host, f.dst, f.payload[0]))])
  }

  function Answer(id: Identity, s: Sink, slot: nat, f: Frame, env: Env): Turn
    requires slot < |s.clients| && f.payload != []
  {
    var c, cmd := s.clients[slot], f.payload[0];
    if f.dst == DST_OS then
      Turn(s, SendTo(c, slot, DST_OS, f.cnt, OsReply(id, cmd)), Nothing)
    else if f.dst == DST_APP && cmd == APP_SEND then
      var (pending, toBridge) := AppSend(s.pending, slot, f.cnt, f.payload, env);
      Turn(s.(pending := pending),
           if toBridge.Sending? then [] else SendTo(c, slot, DST_APP, f.cnt, [ACK, ACK_EUNKNOWN]),
           toBridge)
    else if f.dst == DST_APP then
      var hmid := HmidAfter(s.hmid, f.payload);
      Turn(s.(hmid := hmid), SendTo(c, slot, DST_APP, f.cnt, AppReply(hmid, cmd)), Nothing)
    else
      Turn(s, SendTo(c, slot, f.dst, f.cnt, [ACK, ACK_EUNKNOWN]), Nothing)
  }

  // A frame from the client in a slot, up to its transmission if it has one.
  function OnFrame(id: Identity, s: Sink, slot: nat, f: Frame, env: Env): Turn
    requires slot < |s.clients|
  {
    if f.payload == [] then Turn(s, [], Nothing)
    else Answer(id, AfterProbe(s, slot, f), slot, f, env)
  }

  // What follows the transmission: on failure the entry with that index is freed, whatever has
  // become of it, and the client is told.
  function Settle(s: Sink, slot: nat, cnt: byte, entry: nat, txOk: bool): Turn
    requires slot < |s.clients| && entry < P.SLOTS
  {
    if txOk then Turn(s, [], Nothing)
    else Turn(s.(pending := P.Release(s.pending, entry)),
              SendTo(s.clients[slot], slot, DST_APP, cnt, [ACK, ACK_EUNKNOWN]), Nothing)
  }

  lemma EncodesSomething(cnt: byte, legacy: seq<byte>)
    requires |legacy| >= 13
    ensures |legacy| <= TRANSLATION_CAP ==> Encode(Frame(DST_LLMAC, cnt, SendPayload(legacy))) != []
  {
  }

  // ----- The sink

  class LegacyServer {
    var clients: array<Client>
    var pending: array<P.Entry>
    var hmid: seq<byte>
    var rxCnt: byte
    const identity: Identity

    ghost predicate Shape()
      reads this
    {
      clients.Length == MAX_CLIENTS && pending.Length == P.SLOTS
    }

    function Abs(): Sink
      reads this, clients, pending
      requires Shape()
    {
      Sink(clients[..], pending[..], hmid, rxCnt)
    }

    ghost predicate Valid()
      reads this, clients, pending
    {
      Shape() && SinkValid(Abs()) && IdentityValid(identity)
    }

    constructor (identity: Identity, hmid: seq<byte>)
      requires IdentityValid(identity) && |hmid| == 3
      ensures Valid() && fresh(clients) && fresh(pending) && this.identity == identity
      ensures |Abs().clients| == 4 && forall i :: 0 <= i < 4 ==> !Abs().clients[i].active
      ensures |Abs().pending| == 8 && forall k :: 0 <= k < 8 ==> !Abs().pending[k].active
    {
      clients := new Client[MAX_CLIENTS](_ => Client(false, false, AwaitingProbe));
      pending := new P.Entry[P.SLOTS](_ => P.FREE);
      this.identity, this.hmid, rxCnt := identity, hmid, 0;
    }

    method SendFrame(slot: nat, dst: byte, cnt: byte, payload: seq<byte>) returns (outs: seq<Out>)
      requires Valid() && slot < MAX_CLIENTS
      ensures outs == SendTo(clients[slot], slot, dst, cnt, payload)
    {
      var buf := new byte[MAX_FRAME_ESC];
      var n := FrameEncode(dst, cnt, payload, buf);
      if n < 0 || !clients[slot].sockOpen {
        return [];
      }
      return [ToClient(slot, buf[..n])];
    }

    // ----- Pending table

    method PendingGc(now: int)
      requires Shape()
      modifies pending
      ensures pending[..] == P.Collect(old(pending[..]), now, P.SLOTS)
    {
      for i := 0 to P.SLOTS
        invariant pending[..] == P.Collect(old(pending[..]), now, i)
      {
        if pending[i].active && now - pending[i].sentUs > P.TIMEOUT_US {
          pending[i] := pending[i].(active := false);
        }
      }
    }

    method PendingAlloc(cnt: byte, slot: nat, gcNow: int, now: int) returns (k: int)
      requires Shape()
      modifies pending
      ensures (pending[..], k) == P.Alloc(old(pending[..]), cnt, slot, gcNow, now)
    {
      PendingGc(gcNow);
      ghost var q := pending[..];
      for i := 0 to P.SLOTS
        invariant pending[..] == q && P.FirstFree(q, 0) == P.FirstFree(q, i)
      {
        if !pending[i].active {
          pending[i] := P.Entry(true, cnt, slot, now);
          return i;
        }
      }
      return -1;
    }

    method PendingFindAndTake(cnt: byte) returns (k: int)
      requires Shape()
      modifies pending
      ensures k == P.FirstWaiting(old(pending[..]), cnt, 0)
      ensures pending[..] == if k < 0 then old(pending[..]) else P.Release(old(pending[..]), k)
    {
      for i := 0 to P.SLOTS
        invariant pending[..] == old(pending[..])
        invariant P.FirstWaiting(old(pending[..]), cnt, 0) == P.FirstWaiting(old(pending[..]), cnt, i)
      {
        if pending[i].active && pending[i].cnt == cnt {
          pending[i] := pending[i].(active := false);
          return i;
        }
      }
      return -1;
    }

    // ----- From client to stick

    // The repacked frame as it goes to the stick, or nothing if it does not fit.
    method Repack(cnt: byte, legacy: seq<byte>) returns (wire: seq<byte>)
      requires |legacy| >= 13
      ensures |legacy| > TRANSLATION_CAP ==> wire == []
      ensures |legacy| <= TRANSLATION_CAP ==>
        wire == Encode(Frame(DST_LLMAC, cnt, SendPayload(legacy)))
    {
      var payload: seq<byte> := [LLMAC_SEND, 0x80, 0x00, 0x80, legacy[4]];
      if |legacy| - 5 + |payload| > TRANSLATION_CAP {
        return [];
      }
      payload := payload + legacy[5..];
      var buf := new byte[MAX_FRAME_ESC];
      var n := FrameEncode(DST_LLMAC, cnt, payload, buf);
      return buf[..n];
    }

    // Everything up to the transmission: the checks, the repacked bytes, the reserved entry. The
    // bytes are missing if the request is refused before it reaches the bridge.
    method PrepareAppSend(slot: nat, cnt: byte, legacy: seq<byte>, env: Env)
      returns (k: int, wire: seq<byte>)
      requires Valid() && slot < MAX_CLIENTS
      modifies pending
      ensures Valid() && clients[..] == old(clients[..])
      ensures |old(pending[..])| == P.SLOTS
      ensures (pending[..], k) ==
        if Translatable(legacy, env) then P.Alloc(old(pending[..]), cnt, slot, env.gcNow, env.allocNow)
        else (old(pending[..]), -1)
      ensures k >= 0 ==> wire == Encode(Frame(DST_LLMAC, cnt, SendPayload(legacy)))
    {
      hide Encode;
      if |legacy| < 13 {
        return -1, [];
      }
      if !env.connected || !env.bootDone {
        return -1, [];
      }
      if env.speaksLegacy {
        return -1, [];
      }
      wire := Repack(cnt, legacy);
      if wire == [] {
        EncodesSomething(cnt, legacy);
        return -1, [];
      }
      k := PendingAlloc(cnt, slot, env.gcNow, env.allocNow);
    }

    // The error path after the transmission, on whatever the table has become meanwhile.
    method SettleAppSend(k: nat, txOk: bool)
      requires Valid() && k < P.SLOTS
      modifies pending
      ensures Valid() && clients[..] == old(clients[..])
      ensures |old(pending[..])| == P.SLOTS
      ensures pending[..] == if txOk then old(pending[..]) else P.Release(old(pending[..]), k)
    {
      if !txOk {
        pending[k] := pending[k].(active := false);
      }
    }

    method RespondOs(slot: nat, cnt: byte, cmd: byte) returns (outs: seq<Out>)
      requires Valid() && slot < MAX_CLIENTS
      ensures outs == SendTo(clients[slot], slot, DST_OS, cnt, OsReply(identity, cmd))
    {
      var buf: seq<byte> := [];
      if cmd == OS_GET_APP {
        buf := buf + [0x00] + APP_NAME;
      } else if cmd == OS_GET_FIRMWARE {
        buf := buf + [ACK, ACK_INFO];
        buf := buf + [0x01, 0x00, 0x03];
        buf := buf + [identity.fwMajor, identity.fwMinor, identity.fwPatch];
      } else if cmd == OS_GET_SERIAL {
        buf := buf + [ACK, ACK_INFO];
        for i := 0 to 10
          invariant buf == [ACK, ACK_INFO] + identity.serial[..i]
        {
          buf := buf + [identity.serial[i]];
        }
        assert identity.serial[..10] == identity.serial;
      } else if cmd == OS_GET_CREDITS {
        buf := buf + [ACK, ACK_INFO, 0x00];
      } else if cmd == OS_UPDATE_FIRMWARE || cmd == OS_UPDATE_MODE {
        buf := buf + [ACK, ACK_EUNKNOWN];
      } else {
        buf := buf + [ACK, ACK_OK];
      }
      assert buf == OsReply(identity, cmd);
      outs := SendFrame(slot, DST_OS, cnt, buf);
    }

    method RespondApp(slot: nat, cnt: byte, payload: seq<byte>) returns (outs: seq<Out>)
      requires Valid() && slot < MAX_CLIENTS && payload != []
      modifies this
      ensures Valid() && clients == old(clients) && pending == old(pending)
      ensures Abs() == old(Abs()).(hmid := HmidAfter(old(hmid), payload))
      ensures outs == if payload[0] == APP_SEND then []
                      else SendTo(clients[slot], slot, DST_APP, cnt, AppReply(hmid, payload[0]))
    {
      var cmd := payload[0];
      var buf: seq<byte> := [];
      if cmd == APP_GET_HMID || cmd == APP_DEFAULT_HMID {
        buf := [ACK, ACK_MULTIPART, 0x01, 0x01] + hmid;
      } else if cmd == APP_SET_HMID {
        if |payload| >= 4 {
          hmid := [payload[1], payload[2], payload[3]];
          assert hmid == payload[1..4];
        }
        buf := [ACK, ACK_OK];
      } else if cmd == APP_SEND {
        return [];
      } else if cmd == APP_TRX_GET_MCU_TYPE {
        buf := [ACK, ACK_EUNKNOWN];
      } else {
        buf := [ACK, ACK_OK];
      }
      outs := SendFrame(slot, DST_APP, cnt, buf);
    }

    method AppFrame(slot: nat, f: Frame, env: Env) returns (outs: seq<Out>, toBridge: Sending)
      requires Valid() && slot < MAX_CLIENTS && f.payload != [] && f.dst == DST_APP
      modifies this, pending
      ensures Valid() && clients == old(clients) && pending == old(pending)
      ensures Turn(Abs(), outs, toBridge) == Answer(identity, old(Abs()), slot, f, env)
    {
      hide Encode;
      outs, toBridge := [], Nothing;
      if f.payload[0] == APP_SEND {
        var k, wire := PrepareAppSend(slot, f.cnt, f.payload, env);
        if k < 0 {
          outs := SendFrame(slot, DST_APP, f.cnt, [ACK, ACK_EUNKNOWN]);
        } else {
          toBridge := Sending(k, wire);
        }
      } else {
        outs := RespondApp(slot, f.cnt, f.payload);
      }
    }

    method Probe(slot: nat, f: Frame)
      requires Valid() && slot < MAX_CLIENTS && f.payload != []
      modifies clients
      ensures Valid() && Abs() == AfterProbe(old(Abs()), slot, f)
    {
      var cmd := f.payload[0];
      if clients[slot].host == AwaitingProbe {
        if f.dst == DST_OS && cmd == OS_GET_APP {
          clients[slot] := clients[slot].(host := Fhem);
        } else if f.dst == DST_OS && cmd == OS_CHANGE_APP {
          clients[slot] := clients[slot].(host := Homegear);
        }
      }
    }

    // The handler of a client's frame up to the transmission.
    method OnFrameFrom(slot: nat, f: Frame, env: Env) returns (outs: seq<Out>, toBridge: Sending)
      requires Valid() && slot < MAX_CLIENTS
      modifies this, clients, pending
      ensures Valid() && clients == old(clients) && pending == old(pending)
      ensures Turn(Abs(), outs, toBridge) == OnFrame(identity, old(Abs()), slot, f, env)
    {
      outs, toBridge := [], Nothing;
      if |f.payload| == 0 {
        return;
      }
      Probe(slot, f);
      if f.dst == DST_OS {
        outs := RespondOs(slot, f.cnt, f.payload[0]);
      } else if f.dst == DST_APP {
        outs, toBridge := AppFrame(slot, f, env);
      } else {
        outs := SendFrame(slot, f.dst, f.cnt, [ACK, ACK_EUNKNOWN]);
      }
    }

    // The handler after the transmission.
    method SettleFrame(slot: nat, cnt: byte, entry: nat, txOk: bool) returns (outs: seq<Out>)
      requires Valid() && slot < MAX_CLIENTS && entry < P.SLOTS
      modifies pending
      ensures Valid() && Turn(Abs(), outs, Nothing) == Settle(old(Abs()), slot, cnt, entry, txOk)
    {
      outs := [];
      SettleAppSend(entry, txOk);
      if !txOk {
        outs := SendFrame(slot, DST_APP, cnt, [ACK, ACK_EUNKNOWN]);
      }
    }

    // ----- From stick to client

    method RouteLlmacAck(cnt: byte, llmac: seq<byte>) returns (outs: seq<Out>)
      requires Valid()
      modifies pending
      ensures Valid() && Turn(Abs(), outs, Nothing) == RouteAck(old(Abs()), cnt, llmac)
    {
      outs := [];
      var k := PendingFindAndTake(cnt);
      if k < 0 {
        return;
      }
      var slot := pending[k].client;
      if !clients[slot].active {
        return;
      }
      var status := if |llmac| >= 2 && llmac[1] == 0x01 then ACK_OK else ACK_EUNKNOWN;
      outs := SendFrame(slot, DST_APP, cnt, [ACK, status]);
    }

    method RouteLlmacRecv(llmac: seq<byte>) returns (outs: seq<Out>)
      requires Valid()
      modifies this
      ensures Valid() && clients == old(clients) && pending == old(pending)
      ensures Turn(Abs(), outs, Nothing) == RouteRecv(old(Abs()), llmac)
    {
      outs := [];
      if |llmac| < 5 {
        assert Abs() == old(Abs());
        return;
      }
      var askLen := |llmac| - 5;
      if 4 + askLen > TRANSLATION_CAP {
        assert Abs() == old(Abs());
        return;
      }
      var legacy: seq<byte> := [APP_RECV, 0x01, llmac[3], llmac[4]] + llmac[5..];
      var cnt := rxCnt;
      rxCnt := Bump(rxCnt);
      for i := 0 to MAX_CLIENTS
        invariant Valid() && clients == old(clients) && pending == old(pending)
        invariant Abs() == old(Abs()).(rxCnt := Bump(cnt))
        invariant outs == Broadcast(Abs().clients, cnt, legacy, i)
      {
        if clients[i].active && clients[i].host != AwaitingProbe {
          var more := SendFrame(i, DST_APP, cnt, legacy);
          outs := outs + more;
        }
      }
      assert legacy == RecvPayload(llmac);
    }

    method OnFrameFromSource(f: Frame) returns (outs: seq<Out>)
      requires Valid()
      modifies this, pending
      ensures Valid() && clients == old(clients) && pending == old(pending)
      ensures Turn(Abs(), outs, Nothing) == OnSourceFrame(old(Abs()), f)
    {
      outs := [];
      if |f.payload| < 1 {
        return;
      }
      if f.dst == DST_LLMAC && f.payload[0] == LLMAC_ACK {
        outs := RouteLlmacAck(f.cnt, f.payload);
      } else if f.dst == DST_LLMAC && f.payload[0] == LLMAC_RECV {
        outs := RouteLlmacRecv(f.payload);
      }
    }
  }
}
