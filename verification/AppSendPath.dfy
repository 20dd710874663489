/** A client's request on its whole way to the stick: translation, TX lock, and the chunks of the
    USB driver. */
module AppSendPath {
  import opened Bytes
  import opened Wrappers
  import opened HmuFrame
  import opened HmuDecoder
  import opened HmuStream
  import opened LegacySink
  import opened LegacyRuns
  import L = TxLock
  import U = UsbTransfer

  lemma {:induction false} FlattenPrefix(parts: seq<seq<byte>>, m: nat)
    requires m <= |parts|
    ensures Flatten(parts) == Flatten(parts[..m]) + Flatten(parts[m..])
    decreases m
  {
    if m == 0 {
      assert parts[..0] == [] && parts[0..] == parts;
    } else {
      assert parts[..m][1..] == parts[1..][..m - 1] && parts[m..] == parts[1..][m - 1..];
      FlattenPrefix(parts[1..], m - 1);
    }
  }

  // Of an encoded frame sent in chunks, the stick reads the frame once the last chunk has arrived,
  // and nothing before, whatever state its decoder is in and however the chunks are cut.
  lemma ChunksDeliver(d: State, f: Frame, room: nat, m: nat)
    requires CoreValid(d.core) && Encodable(f) && room > 0 && m <= |U.Chunks(Encode(f), room)|
    ensures ConsumeChunks(d, U.Chunks(Encode(f), room)[..m]).1
         == if m == |U.Chunks(Encode(f), room)| then [f] else []
  {
    hide Encode, U.Chunks, Consume;
    var parts := U.Chunks(Encode(f), room);
    U.ChunksAreData(Encode(f), room);
    CuttingIsInvisible(d, parts[..m]);
    if m == |parts| {
      assert parts[..m] == parts;
      RoundTrip(d, f);
    } else {
      FlattenPrefix(parts, m);
      LastPartRemains(parts, m);
      CutDeliversNothing(d, f, Flatten(parts[..m]));
    }
  }

  lemma {:induction false} LastPartRemains(parts: seq<seq<byte>>, m: nat)
    requires m < |parts| && parts[|parts| - 1] != []
    ensures Flatten(parts[m..]) != []
    decreases |parts| - m
  {
    assert parts[m..][1..] == parts[m + 1..] && parts[m..][0] == parts[m];
    if m + 1 < |parts| {
      LastPartRemains(parts, m + 1);
    }
  }

  // An APP_SEND that is handed on, sent under the TX lock in a state that the mutex sections allow:
  // the bridge reports success exactly if the lock admits the sink and every chunk succeeds, and then
  // the stick reads one LLMAC_SEND with the same counter and payload. If only the first m chunks
  // arrive, the stick reads that frame exactly if they are all.
  lemma AppSendReachesStick(d: State, id: Identity, s: Sink, slot: nat, cnt: byte, legacy: seq<byte>, env: Env,
                            b: L.Lock, who: L.SinkId, now: int, doneAt: int,
                            room: nat, timeout: u32, start: u32, stack: nat -> U.ChunkResult, m: nat)
    requires CoreValid(d.core) && slot < |s.clients| && L.Valid(b) && room > 0
    requires 13 <= |legacy| <= 256 && legacy[0] == 0x02
    requires env.connected && env.bootDone && !env.speaksLegacy && !PendingFull(s.pending, env.gcNow)
    ensures var turn := OnFrame(id, s, slot, Frame(0x01, cnt, legacy), env);
      && turn.toBridge.Sending?
      && var parts := U.Chunks(turn.toBridge.wire, room);
      && m <= |parts| ==>
           && var sent := U.AllSent(parts, |parts|, stack, timeout, start);
           && (L.Call(b, Some(who), |turn.toBridge.wire|, true, now, sent, doneAt).1 == L.Ok
               <==> L.Admits(b, who, now) && sent)
           && ConsumeChunks(d, parts[..m]).1
              == if m == |parts| then [Frame(0x03, cnt, [0x06, 0x80, 0x00, 0x80] + legacy[4..])] else []
  {
    var f := Frame(DST_LLMAC, cnt, SendPayload(legacy));
    assert f.payload == [0x06, 0x80, 0x00, 0x80] + legacy[4..];
    AppSendWire(id, s, slot, cnt, legacy, env);
    hide OnFrame, Encode, ConsumeChunks, U.Chunks, L.Claim, L.Stamp, U.AllSent;
    if m <= |U.Chunks(Encode(f), room)| {
      ChunksDeliver(d, f, room, m);
    }
  }

  lemma AppSendWire(id: Identity, s: Sink, slot: nat, cnt: byte, legacy: seq<byte>, env: Env)
    requires slot < |s.clients| && 13 <= |legacy| <= 256 && legacy[0] == 0x02
    requires env.connected && env.bootDone && !env.speaksLegacy && !PendingFull(s.pending, env.gcNow)
    ensures var turn := OnFrame(id, s, slot, Frame(0x01, cnt, legacy), env);
      turn.toBridge.Sending? && turn.toBridge.wire == Encode(Frame(DST_LLMAC, cnt, SendPayload(legacy)))
  {
    AppSendHanded(s.pending, slot, cnt, legacy, env);
    hide Encode, SendPayload;
  }
}
