/** End-to-end behaviour of the legacy emulation: from the bytes one side sends to the frames
    the other side reads, across both codecs, the translations and the pending table. */
module LegacyRuns {
  import opened Bytes
  import opened HmuFrame
  import opened HmuDecoder
  import opened HmuStream
  import opened LegacySink
  import P = PendingAcks

  // A receiver in any decoder state reads exactly this frame from these bytes.
  ghost predicate ReadsAs(bytes: seq<byte>, f: Frame) {
    forall d: State {:trigger Consume(d, bytes)} :: CoreValid(d.core) ==> Consume(d, bytes).1 == [f]
  }

  lemma EncodedReadsAs(f: Frame)
    requires Encodable(f)
    ensures ReadsAs(Encode(f), f)
  {
    forall d: State | CoreValid(d.core) ensures Consume(d, Encode(f)).1 == [f] {
      RoundTrip(d, f);
    }
  }

  // ----- From client to stick

  ghost predicate PendingFull(p: P.Table, now: int) {
    forall i :: 0 <= i < 8 ==> p[i].active && now - p[i].sentUs <= 300_000
  }

  // When an APP_SEND is handed to the bridge, what the bridge gets, and the entry that waits for it.
  lemma AppSendHanded(p: P.Table, slot: nat, cnt: byte, legacy: seq<byte>, env: Env)
    ensures AppSend(p, slot, cnt, legacy, env).1.Sending?
      <==> && 13 <= |legacy| <= 256 && env.connected && env.bootDone && !env.speaksLegacy
           && !PendingFull(p, env.gcNow)
    ensures var (q, sending) := AppSend(p, slot, cnt, legacy, env);
      sending.Sending? ==>
        && sending.entry < P.SLOTS
        && ReadsAs(sending.wire, Frame(0x03, cnt, [0x06, 0x80, 0x00, 0x80] + legacy[4..]))
        && !P.Collect(p, env.gcNow, P.SLOTS)[sending.entry].active
        && q == P.Collect(p, env.gcNow, P.SLOTS)[sending.entry := P.Entry(true, cnt, slot, env.allocNow)]
  {
    P.AllocFails(p, cnt, slot, env.gcNow, env.allocNow);
    if Translatable(legacy, env) {
      var f := Frame(DST_LLMAC, cnt, SendPayload(legacy));
      EncodedReadsAs(f);
      assert f.payload == [LLMAC_SEND, 0x80, 0x00, 0x80] + legacy[4..];
    }
  }

  // Client bytes in, stick frame out: an APP_SEND of 13 to 256 bytes that finds the source ready and a
  // free entry is handed on as one LLMAC_SEND with the same counter, whatever states the two decoders
  // were in.
  lemma AppSendEndToEnd(d: State, id: Identity, s: Sink, slot: nat, cnt: byte, legacy: seq<byte>, env: Env)
    requires CoreValid(d.core) && slot < |s.clients|
    requires 13 <= |legacy| <= 256 && legacy[0] == 0x02
    requires env.connected && env.bootDone && !env.speaksLegacy && !PendingFull(s.pending, env.gcNow)
    ensures Consume(d, Encode(Frame(0x01, cnt, legacy))).1 == [Frame(0x01, cnt, legacy)]
    ensures var turn := OnFrame(id, s, slot, Frame(0x01, cnt, legacy), env);
      && turn.outs == []
      && turn.toBridge.Sending?
      && ReadsAs(turn.toBridge.wire, Frame(0x03, cnt, [0x06, 0x80, 0x00, 0x80] + legacy[4..]))
  {
    var f := Frame(DST_APP, cnt, legacy);
    RoundTrip(d, f);
    AppSendHanded(s.pending, slot, cnt, legacy, env);
    assert OnFrame(id, s, slot, f, env) == Answer(id, AfterProbe(s, slot, f), slot, f, env);
  }

  // ----- From stick to client

  function OutsTo(outs: seq<Out>, i: nat): seq<seq<byte>> {
    if outs == [] then []
    else
      var last := outs[|outs| - 1];
      OutsTo(outs[..|outs| - 1], i) + if last.slot == i then [last.bytes] else []
  }

  lemma OutsToSnoc(outs: seq<Out>, o: Out, i: nat)
    ensures OutsTo(outs + [o], i) == if o.slot == i then OutsTo(outs, i) + [o.bytes] else OutsTo(outs, i)
  {
    assert (outs + [o])[..|outs + [o]| - 1] == outs;
    assert OutsTo(outs, i) + [] == OutsTo(outs, i);
  }

  lemma BroadcastStep(clients: seq<Client>, cnt: byte, payload: seq<byte>, n: nat)
    requires 0 < n <= |clients| && |payload| <= MAX_PAYLOAD
    ensures Broadcast(clients, cnt, payload, n) ==
      if Listening(clients[n - 1]) && clients[n - 1].sockOpen
      then Broadcast(clients, cnt, payload, n - 1) + [ToClient(n - 1, Encode(Frame(DST_APP, cnt, payload)))]
      else Broadcast(clients, cnt, payload, n - 1)
  {
    hide Encode;
    var before := Broadcast(clients, cnt, payload, n - 1);
    assert before + [] == before;
  }

  lemma OneMoreOut(before: seq<Out>, after: seq<Out>, heard: bool, n: nat, wire: seq<byte>, i: nat)
    requires after == if heard then before + [ToClient(n, wire)] else before
    requires i == n ==> OutsTo(before, i) == []
    ensures OutsTo(after, i) == if heard && i == n then [wire] else OutsTo(before, i)
  {
    OutsToSnoc(before, ToClient(n, wire), i);
    AppendToNone(wire);
  }

  lemma AppendToNone<T>(x: T)
    ensures [] + [x] == [x]
  {
  }

  lemma BroadcastNone(clients: seq<Client>, cnt: byte, payload: seq<byte>, i: nat)
    ensures OutsTo(Broadcast(clients, cnt, payload, 0), i) == []
  {
  }

  // A connected client that has probed the module.
  predicate Probed(c: Client) {
    c.active && c.sockOpen && c.host != AwaitingProbe
  }

  // Each of them below n gets the frame once, everybody else nothing.
  lemma {:induction false} BroadcastOutcome(clients: seq<Client>, cnt: byte, payload: seq<byte>, n: nat, i: nat)
    requires n <= |clients| && i < |clients| && |payload| <= MAX_PAYLOAD
    ensures OutsTo(Broadcast(clients, cnt, payload, n), i) ==
      if i < n && Probed(clients[i]) then [Encode(Frame(0x01, cnt, payload))] else []
    decreases n
  {
    hide Encode, Broadcast, OutsTo;
    if n == 0 {
      BroadcastNone(clients, cnt, payload, i);
    } else {
      BroadcastStep(clients, cnt, payload, n);
      BroadcastOutcome(clients, cnt, payload, n - 1, i);
      OneMoreOut(Broadcast(clients, cnt, payload, n - 1), Broadcast(clients, cnt, payload, n),
                 Listening(clients[n - 1]) && clients[n - 1].sockOpen,
                 n - 1, Encode(Frame(DST_APP, cnt, payload)), i);
    }
  }

  predicate RecvFrame(f: Frame) {
    f.dst == 0x03 && 5 <= |f.payload| <= 257 && f.payload[0] == 0x05
  }

  lemma RecvDelivered(s: Sink, llmac: seq<byte>, i: nat)
    requires SinkValid(s) && i < MAX_CLIENTS && 5 <= |llmac| <= 257
    ensures var turn := RouteRecv(s, llmac);
      && turn.sink == s.(rxCnt := (s.rxCnt as int + 1) % 0x100)
      && (if Probed(s.clients[i]) then
            |OutsTo(turn.outs, i)| == 1
            && ReadsAs(OutsTo(turn.outs, i)[0], Frame(0x01, s.rxCnt, [0x05, 0x01] + llmac[3..]))
          else OutsTo(turn.outs, i) == [])
  {
    var f := Frame(DST_APP, s.rxCnt, RecvPayload(llmac));
    assert f.payload == [0x05, 0x01] + llmac[3..];
    BroadcastOutcome(s.clients, s.rxCnt, f.payload, |s.clients|, i);
    EncodedReadsAs(f);
  }

  // Stick bytes in, client frames out: an LLMAC_RECV of 5 to 257 bytes reaches every probed client
  // with an open socket as one APP_RECV, under the sink's own counter, which advances by one.
  lemma RecvEndToEnd(d: State, s: Sink, cnt: byte, llmac: seq<byte>, i: nat)
    requires CoreValid(d.core) && SinkValid(s) && i < MAX_CLIENTS
    requires RecvFrame(Frame(0x03, cnt, llmac))
    ensures Consume(d, Encode(Frame(0x03, cnt, llmac))).1 == [Frame(0x03, cnt, llmac)]
    ensures var turn := OnSourceFrame(s, Frame(0x03, cnt, llmac));
      && turn.sink == s.(rxCnt := (s.rxCnt as int + 1) % 0x100)
      && (if Probed(s.clients[i]) then
            |OutsTo(turn.outs, i)| == 1
            && ReadsAs(OutsTo(turn.outs, i)[0], Frame(0x01, s.rxCnt, [0x05, 0x01] + llmac[3..]))
          else OutsTo(turn.outs, i) == [])
  {
    RoundTrip(d, Frame(DST_LLMAC, cnt, llmac));
    RecvDelivered(s, llmac, i);
    hide ReadsAs, OutsTo, RouteRecv;
    assert OnSourceFrame(s, Frame(DST_LLMAC, cnt, llmac)) == RouteRecv(s, llmac);
  }

  // Any sequence of stick frames; RECV frames alone move the counter, one step each.
  function OnSourceFrames(s: Sink, frames: seq<Frame>): (t: Sink)
    requires SinkValid(s)
    ensures SinkValid(t)
  {
    if frames == [] then s
    else OnSourceFrame(OnSourceFrames(s, frames[..|frames| - 1]), frames[|frames| - 1]).sink
  }

  function RecvCount(frames: seq<Frame>): nat {
    if frames == [] then 0
    else RecvCount(frames[..|frames| - 1]) + if RecvFrame(frames[|frames| - 1]) then 1 else 0
  }

  lemma ModAdds(x: nat, d: nat, before: byte, after: byte, total: nat)
    requires before == x % 0x100 && after == (before as int + d) % 0x100 && total == x + d
    ensures after == total % 0x100
  {
  }

  lemma RecvCounterStep(s: Sink, f: Frame)
    requires SinkValid(s)
    ensures OnSourceFrame(s, f).sink.rxCnt == (s.rxCnt as int + if RecvFrame(f) then 1 else 0) % 0x100
  {
    hide Broadcast, SendTo, P.Release, P.FirstWaiting;
  }

  lemma LastFrame(s: Sink, frames: seq<Frame>)
    requires SinkValid(s)
    ensures OnSourceFrames(s, []) == s && RecvCount([]) == 0
    ensures frames != [] ==>
      var init, last := frames[..|frames| - 1], frames[|frames| - 1];
      && OnSourceFrames(s, frames) == OnSourceFrame(OnSourceFrames(s, init), last).sink
      && RecvCount(frames) == RecvCount(init) + if RecvFrame(last) then 1 else 0
  {
    hide OnSourceFrame, RecvFrame, SinkValid;
  }

  lemma {:induction false} RecvCounterAdvances(s: Sink, frames: seq<Frame>)
    requires SinkValid(s)
    ensures OnSourceFrames(s, frames).rxCnt == (s.rxCnt as int + RecvCount(frames)) % 0x100
    decreases |frames|
  {
    hide OnSourceFrame, RecvFrame, SinkValid, OnSourceFrames, RecvCount;
    LastFrame(s, frames);
    if frames != [] {
      var init, last := frames[..|frames| - 1], frames[|frames| - 1];
      RecvCounterAdvances(s, init);
      RecvCounterStep(OnSourceFrames(s, init), last);
      ModAdds(s.rxCnt as int + RecvCount(init), if RecvFrame(last) then 1 else 0,
              OnSourceFrames(s, init).rxCnt, OnSourceFrames(s, frames).rxCnt,
              s.rxCnt as int + RecvCount(frames));
    }
  }

  // ----- Acknowledgements

  // The status a client is told for an ACK of the stick with this payload: good exactly if the second
  // byte is 1, bad for every other byte and for none.
  function ToldStatus(llmac: seq<byte>): byte {
    if |llmac| >= 2 && llmac[1] == 0x01 then 0x01 else 0x84
  }

  // The sender of the allocation in slot k gets the ACK for its counter exactly if no earlier
  // slot waits for the same counter.
  lemma AckReachesSender(s: Sink, cnt: byte, llmac: seq<byte>, k: nat)
    requires SinkValid(s) && k < P.SLOTS && P.WaitsFor(s.pending[k], cnt)
    requires llmac != [] && llmac[0] == 0x01
    ensures var slot := s.pending[k].client; var turn := OnSourceFrame(s, Frame(0x03, cnt, llmac));
      && (turn.sink.pending == P.Release(s.pending, k)
          <==> forall j :: 0 <= j < k ==> !P.WaitsFor(s.pending[j], cnt))
      && (turn.sink.pending == P.Release(s.pending, k)
          && s.clients[slot].active && s.clients[slot].sockOpen ==>
            |turn.outs| == 1 && turn.outs[0].slot == slot
            && ReadsAs(turn.outs[0].bytes, Frame(0x01, cnt, [0x04, ToldStatus(llmac)])))
  {
    var j := P.FirstWaiting(s.pending, cnt, 0);
    assert 0 <= j <= k;
    var q := P.Release(s.pending, j);
    assert !q[j].active;
    if j != k {
      assert P.Release(s.pending, k)[j].active;
    }
    EncodedReadsAs(Frame(DST_APP, cnt, AckPayload(llmac)));
  }

  // An ACK goes to one client at most, and only to one that an active entry for its counter names.
  lemma AckOnlyToWaiting(s: Sink, cnt: byte, llmac: seq<byte>)
    requires SinkValid(s) && llmac != [] && llmac[0] == LLMAC_ACK
    ensures var outs := OnSourceFrame(s, Frame(DST_LLMAC, cnt, llmac)).outs;
      && |outs| <= 1
      && (outs != [] ==>
            && outs[0].slot < MAX_CLIENTS && s.clients[outs[0].slot].active
            && exists k :: 0 <= k < P.SLOTS && P.WaitsFor(s.pending[k], cnt) && s.pending[k].client == outs[0].slot)
  {
    var k := P.FirstWaiting(s.pending, cnt, 0);
    if k >= 0 {
      assert P.WaitsFor(s.pending[k], cnt);
    }
  }

  // An ACK that finds nobody waiting changes nothing and is sent to nobody.
  lemma ForeignAckIgnored(s: Sink, cnt: byte, llmac: seq<byte>)
    requires SinkValid(s) && llmac != [] && llmac[0] == LLMAC_ACK
    requires forall k :: 0 <= k < P.SLOTS ==> !P.WaitsFor(s.pending[k], cnt)
    ensures OnSourceFrame(s, Frame(DST_LLMAC, cnt, llmac)) == Turn(s, [], Nothing)
  {
  }

  // After an APP_SEND was handed on the table is the collected one with one entry more.
  lemma AppSendPends(s: Sink, slot: nat, cnt: byte, legacy: seq<byte>, env: Env, k: nat)
    requires SinkValid(s) && AppSend(s.pending, slot, cnt, legacy, env).1.Sending?
    requires forall j :: 0 <= j < P.SLOTS ==> !P.WaitsFor(s.pending[j], cnt)
    requires k < P.SLOTS
    ensures var q := AppSend(s.pending, slot, cnt, legacy, env).0; var n := P.FirstWaiting(q, cnt, 0);
      && 0 <= n && q[n].client == slot
      && (P.WaitsFor(q[k], cnt) ==> k == n)
      && (q[k].active && k != n ==> q[k] == s.pending[k])
  {
    var c := P.Collect(s.pending, env.gcNow, P.SLOTS);
    var n := P.FirstFree(c, 0);
    var q := AppSend(s.pending, slot, cnt, legacy, env).0;
    assert q == c[n := P.Entry(true, cnt, slot, env.allocNow)];
    assert P.WaitsFor(q[n], cnt);
    var m := P.FirstWaiting(q, cnt, 0);
    assert P.WaitsFor(q[m], cnt);
    assert !P.WaitsFor(c[m], cnt);
  }

  // An APP_SEND that is handed on, followed by the stick's ACK for its counter, which nobody else waits for,
  // gives the client one readable ACK; a second ACK from the stick is ignored.
  lemma SendThenAck(id: Identity, s: Sink, slot: nat, cnt: byte, legacy: seq<byte>, env: Env, llmac: seq<byte>)
    requires SinkValid(s) && slot < MAX_CLIENTS && s.clients[slot].active && s.clients[slot].sockOpen
    requires legacy != [] && legacy[0] == APP_SEND && AppSend(s.pending, slot, cnt, legacy, env).1.Sending?
    requires forall j :: 0 <= j < P.SLOTS ==> !P.WaitsFor(s.pending[j], cnt)
    requires llmac != [] && llmac[0] == LLMAC_ACK
    ensures var t := OnFrame(id, s, slot, Frame(DST_APP, cnt, legacy), env).sink;
      && SinkValid(t)
      && var ack := OnSourceFrame(t, Frame(DST_LLMAC, cnt, llmac));
      && |ack.outs| == 1 && ack.outs[0].slot == slot
      && ReadsAs(ack.outs[0].bytes, Frame(0x01, cnt, [0x04, ToldStatus(llmac)]))
      && SinkValid(ack.sink)
      && OnSourceFrame(ack.sink, Frame(DST_LLMAC, cnt, llmac)) == Turn(ack.sink, [], Nothing)
  {
    var f := Frame(DST_APP, cnt, legacy);
    var t := OnFrame(id, s, slot, f, env).sink;
    var q := AppSend(s.pending, slot, cnt, legacy, env).0;
    assert t == AfterProbe(s, slot, f).(pending := q);
    forall k | 0 <= k < P.SLOTS
      ensures q[k].active ==> q[k].client < MAX_CLIENTS
      ensures P.WaitsFor(q[k], cnt) ==> k == P.FirstWaiting(q, cnt, 0)
    {
      AppSendPends(s, slot, cnt, legacy, env, k);
    }
    AppSendPends(s, slot, cnt, legacy, env, 0);
    hide AppSend, OnFrame, Encode;
    var n := P.FirstWaiting(q, cnt, 0);
    AckReachesSender(t, cnt, llmac, n);
    var ack := OnSourceFrame(t, Frame(DST_LLMAC, cnt, llmac));
    assert ack.sink == t.(pending := P.Release(q, n));
    ForeignAckIgnored(ack.sink, cnt, llmac);
  }

  // Two clients that wait for one counter: the ACK goes to the one that asked first, whichever of the
  // two frames the stick means, and the other is left waiting.
  lemma SharedCounter(s: Sink, a: nat, b: nat, cnt: byte, p1: seq<byte>, e1: Env, p2: seq<byte>, e2: Env,
                      llmac: seq<byte>)
    requires SinkValid(s) && a < MAX_CLIENTS && b < MAX_CLIENTS && s.clients[a].active && s.clients[a].sockOpen
    requires forall k :: 0 <= k < P.SLOTS ==> !s.pending[k].active
    requires Translatable(p1, e1) && Translatable(p2, e2)
    requires e2.gcNow - e1.allocNow <= P.TIMEOUT_US && llmac != [] && llmac[0] == LLMAC_ACK
    ensures var t := s.(pending := AppSend(AppSend(s.pending, a, cnt, p1, e1).0, b, cnt, p2, e2).0);
      && SinkValid(t)
      && t.pending[0] == P.Entry(true, cnt, a, e1.allocNow) && t.pending[1] == P.Entry(true, cnt, b, e2.allocNow)
      && var ack := OnSourceFrame(t, Frame(DST_LLMAC, cnt, llmac));
      && |ack.outs| == 1 && ack.outs[0].slot == a
      && ReadsAs(ack.outs[0].bytes, Frame(0x01, cnt, [0x04, ToldStatus(llmac)]))
      && ack.sink.pending[1] == t.pending[1]
  {
    hide Encode;
    var c1 := P.Collect(s.pending, e1.gcNow, P.SLOTS);
    assert !c1[0].active && P.FirstFree(c1, 0) == 0;
    var q1 := c1[0 := P.Entry(true, cnt, a, e1.allocNow)];
    assert AppSend(s.pending, a, cnt, p1, e1).0 == q1;
    var c2 := P.Collect(q1, e2.gcNow, P.SLOTS);
    assert c2[0] == q1[0] && !c2[1].active;
    assert P.FirstFree(c2, 0) == 1;
    var q2 := c2[1 := P.Entry(true, cnt, b, e2.allocNow)];
    assert AppSend(q1, b, cnt, p2, e2).0 == q2;
    var t := s.(pending := q2);
    assert forall k :: 2 <= k < P.SLOTS ==> !q2[k].active;
    hide AppSend, Translatable;
    AckReachesSender(t, cnt, llmac, 0);
  }
}
