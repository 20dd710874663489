/** The bridge's sink list and its TX-master lock: the sections that bridge_tx_to_source runs
    under the mutex as functions on the lock, and the class that performs them in place. */
module TxLock {
  import opened Bytes
  import opened Wrappers

  const MAX_SINKS: nat := 8
  const SINK_ID_MAXLEN: nat := 16
  const AUTO_IDLE_US: int := 5_000_000

  type SinkId = nat

  datatype Mode = Auto | Pinned

  datatype Lock = Lock(
    sinks: seq<SinkId>, ids: seq<string>,
    mode: Mode, owner: int, lastUs: int,
    rejected: seq<u32>, rejectedTotal: u32,
    droppedLocked: u32, droppedNotReady: u32, txBytes: u32)

  const INITIAL: Lock := Lock([], [], Auto, -1, 0, [0, 0, 0, 0, 0, 0, 0, 0], 0, 0, 0, 0)

  // First position of x, or -1.
  function Index<T(==)>(xs: seq<T>, x: T): (i: int)
    ensures -1 <= i < |xs|
    ensures i >= 0 ==> xs[i] == x && x !in xs[..i]
    ensures i < 0 ==> x !in xs
  {
    if xs == [] then -1
    else if xs[0] == x then 0
    else
      var i := Index(xs[1..], x);
      if i < 0 then -1 else i + 1
  }

  lemma {:induction false} IndexUnique<T>(xs: seq<T>, x: T, i: nat)
    requires i < |xs| && xs[i] == x && x !in xs[..i]
    ensures Index(xs, x) == i
  {
    if i == 0 {
    } else {
      assert xs[..i] == [xs[0]] + xs[1..][..i - 1];
      IndexUnique(xs[1..], x, i - 1);
    }
  }

  ghost predicate Valid(b: Lock) {
    && |b.sinks| == |b.ids| <= MAX_SINKS
    && |b.rejected| == MAX_SINKS
    && -1 <= b.owner < |b.sinks|
    && (b.mode == Pinned ==> b.owner >= 0)
  }

  // ----- The sections of bridge_tx_to_source

  function Ready(b: Lock, ready: bool): Lock {
    if ready then b else b.(droppedNotReady := Inc(b.droppedNotReady))
  }

  predicate Idle(b: Lock, now: int) {
    b.owner < 0 || now - b.lastUs > AUTO_IDLE_US
  }

  predicate Admits(b: Lock, who: SinkId, now: int) {
    var mine := Index(b.sinks, who);
    && mine >= 0
    && (mine == b.owner || (b.mode == Auto && Idle(b, now)))
  }

  // The lock after a sink asked to send: claimed, kept, or the refusal counted.
  function Claim(b: Lock, who: SinkId, now: int): Lock
    requires Valid(b)
  {
    var mine := Index(b.sinks, who);
    if Admits(b, who, now) then b.(owner := mine)
    else b.(rejected := if mine >= 0 then b.rejected[mine := Inc(b.rejected[mine])] else b.rejected,
            rejectedTotal := Inc(b.rejectedTotal),
            droppedLocked := Inc(b.droppedLocked))
  }

  function Stamp(b: Lock, len: nat, now: int): Lock {
    b.(txBytes := Wrap(b.txBytes + len), lastUs := now)
  }

  // ----- Choosing the master, attaching sinks

  predicate MeansAuto(id: Option<string>) {
    id.None? || id.value == "" || id.value == "auto"
  }

  function SetMaster(b: Lock, id: Option<string>): Lock {
    if MeansAuto(id) then b.(mode := Auto, owner := -1)
    else
      var i := Index(b.ids, id.value);
      if i < 0 then b else b.(mode := Pinned, owner := i)
  }

  // Identifiers are cut to fit their field.
  function StoredId(id: Option<string>): string {
    if id.None? then ""
    else if |id.value| < SINK_ID_MAXLEN then id.value
    else id.value[..SINK_ID_MAXLEN - 1]
  }

  function Attach(b: Lock, sink: SinkId, id: Option<string>): Lock {
    if |b.sinks| >= MAX_SINKS then b
    else b.(sinks := b.sinks + [sink], ids := b.ids + [StoredId(id)])
  }

  // ----- The bridge

  datatype TxResult = Ok | NotReady | Locked | Failed

  class Bridge {
    var sinks: array<SinkId>
    var sinkIds: array<string>
    var sinkCount: nat
    var txMode: Mode
    var txOwnerIdx: int
    var txLastUs: int
    var txRejLock: array<u32>
    var txRejLockTotal: u32
    var txDroppedLocked: u32
    var txDroppedNotReady: u32
    var txBytesTotal: u32
    var rxPumpsTotal: u32
    var rxBytesTotal: u32

    ghost predicate Shape()
      reads this
    {
      && sinks.Length == sinkIds.Length == txRejLock.Length == MAX_SINKS
      && sinkCount <= MAX_SINKS
    }

    function Abs(): Lock
      reads this, sinks, sinkIds, txRejLock
      requires Shape()
    {
      Lock(sinks[..sinkCount], sinkIds[..sinkCount], txMode, txOwnerIdx, txLastUs,
           txRejLock[..], txRejLockTotal, txDroppedLocked, txDroppedNotReady, txBytesTotal)
    }

    ghost predicate Good()
      reads this, sinks, sinkIds, txRejLock
    {
      Shape() && Valid(Abs())
    }

    constructor ()
      ensures Good() && Abs() == INITIAL
      ensures fresh(sinks) && fresh(sinkIds) && fresh(txRejLock)
    {
      sinks := new SinkId[MAX_SINKS](_ => 0);
      sinkIds := new string[MAX_SINKS](_ => "");
      txRejLock := new u32[MAX_SINKS](_ => 0);
      sinkCount, txMode, txOwnerIdx, txLastUs := 0, Auto, -1, 0;
      txRejLockTotal, txDroppedLocked, txDroppedNotReady, txBytesTotal := 0, 0, 0, 0;
      rxPumpsTotal, rxBytesTotal := 0, 0;
    }

    method FindSinkIdx(who: SinkId) returns (idx: int)
      requires Good()
      ensures idx == Index(Abs().sinks, who)
    {
      for i := 0 to sinkCount
        invariant who !in sinks[..i]
      {
        if sinks[i] == who {
          IndexUnique(Abs().sinks, who, i);
          return i;
        }
      }
      return -1;
    }

    // Neither a missing identifier nor an empty one matches anything, stored empty ones included.
    method FindSinkId(id: Option<string>) returns (idx: int)
      requires Good()
      ensures idx == if id == None || id == Some("") then -1 else Index(Abs().ids, id.value)
    {
      if id == None {
        return -1;
      }
      for i := 0 to sinkCount
        invariant id.value == "" || id.value !in sinkIds[..i]
      {
        if sinkIds[i] != "" && sinkIds[i] == id.value {
          IndexUnique(Abs().ids, id.value, i);
          return i;
        }
      }
      return -1;
    }

    method AttachSink(sink: SinkId, shortId: Option<string>) returns (ok: bool)
      requires Good()
      modifies this, sinks, sinkIds
      ensures Good() && Abs() == Attach(old(Abs()), sink, shortId)
      ensures ok == (|old(Abs()).sinks| < MAX_SINKS)
      ensures sinks == old(sinks) && sinkIds == old(sinkIds) && txRejLock == old(txRejLock)
    {
      if sinkCount >= MAX_SINKS {
        return false;
      }
      sinks[sinkCount] := sink;
      sinkIds[sinkCount] := StoredId(shortId);
      sinkCount := sinkCount + 1;
      assert sinks[..sinkCount] == old(sinks[..sinkCount]) + [sink];
      assert sinkIds[..sinkCount] == old(sinkIds[..sinkCount]) + [StoredId(shortId)];
      return true;
    }

    method CheckReady(ready: bool) returns (ok: bool)
      requires Good()
      modifies this
      ensures Good() && Abs() == Ready(old(Abs()), ready) && ok == ready
      ensures sinks == old(sinks) && sinkIds == old(sinkIds) && txRejLock == old(txRejLock)
    {
      if !ready {
        txDroppedNotReady := Inc(txDroppedNotReady);
      }
      return ready;
    }

    method CheckLock(who: SinkId, now: int) returns (allowed: bool)
      requires Good()
      modifies this, txRejLock
      ensures Good() && Abs() == Claim(old(Abs()), who, now)
      ensures allowed == Admits(old(Abs()), who, now)
      ensures sinks == old(sinks) && sinkIds == old(sinkIds) && txRejLock == old(txRejLock)
    {
      var myIdx := FindSinkIdx(who);
      if txMode == Pinned {
        allowed := myIdx >= 0 && myIdx == txOwnerIdx;
      } else {
        var idle := txOwnerIdx < 0 || now - txLastUs > AUTO_IDLE_US;
        allowed := myIdx >= 0 && (idle || myIdx == txOwnerIdx);
        if allowed && myIdx != txOwnerIdx {
          txOwnerIdx := myIdx;
        }
      }
      if !allowed {
        if myIdx >= 0 {
          txRejLock[myIdx] := Inc(txRejLock[myIdx]);
        }
        txRejLockTotal := Inc(txRejLockTotal);
        txDroppedLocked := Inc(txDroppedLocked);
      }
    }

    method StampTx(len: nat, now: int)
      requires Good()
      modifies this
      ensures Good() && Abs() == Stamp(old(Abs()), len, now)
      ensures sinks == old(sinks) && sinkIds == old(sinkIds) && txRejLock == old(txRejLock)
    {
      txBytesTotal := Wrap(txBytesTotal + len);
      txLastUs := now;
    }

    // One call with nothing else between its sections. The source's readiness, the outcome of
    // its transmission and the two clock readings are inputs.
    method TxToSource(who: Option<SinkId>, len: nat, ready: bool, now: int, sent: bool, doneAt: int)
      returns (r: TxResult)
      requires Good()
      modifies this, txRejLock
      ensures Good() && (Abs(), r) == Call(old(Abs()), who, len, ready, now, sent, doneAt)
    {
      var up := CheckReady(ready);
      if !up {
        return NotReady;
      }
      if who.Some? {
        var allowed := CheckLock(who.value, now);
        if !allowed {
          return Locked;
        }
      }
      if !sent {
        return Failed;
      }
      StampTx(len, doneAt);
      return Ok;
    }

    method SetTxMaster(id: Option<string>) returns (ok: bool)
      requires Good()
      modifies this
      ensures Good() && Abs() == SetMaster(old(Abs()), id)
      ensures ok == (MeansAuto(id) || id.value in old(Abs()).ids)
    {
      if MeansAuto(id) {
        txMode := Auto;
        txOwnerIdx := -1;
        return true;
      }
      var idx := FindSinkId(id);
      if idx < 0 {
        return false;
      }
      txMode := Pinned;
      txOwnerIdx := idx;
      return true;
    }

    // The sinks that get the received bytes: all attached ones, in order of attachment.
    method OnSourceRx(len: nat) returns (receivers: seq<SinkId>)
      requires Good()
      modifies this
      ensures Good() && Abs() == old(Abs())
      ensures receivers == if len == 0 then [] else Abs().sinks
      ensures rxPumpsTotal == if len == 0 then old(rxPumpsTotal) else Inc(old(rxPumpsTotal))
      ensures rxBytesTotal == Wrap(old(rxBytesTotal) + len)
    {
      if len == 0 {
        return [];
      }
      receivers := sinks[..sinkCount];
      rxPumpsTotal := Inc(rxPumpsTotal);
      rxBytesTotal := Wrap(rxBytesTotal + len);
    }
  }

  function Call(b: Lock, who: Option<SinkId>, len: nat, ready: bool, now: int, sent: bool, doneAt: int)
    : (Lock, TxResult)
    requires Valid(b)
  {
    if !ready then (Ready(b, false), NotReady)
    else if who.Some? && !Admits(b, who.value, now) then (Claim(b, who.value, now), Locked)
    else
      var c := if who.Some? then Claim(b, who.value, now) else b;
      if sent then (Stamp(c, len, doneAt), Ok) else (c, Failed)
  }
}
