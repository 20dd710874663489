/** The two bulk transfers of the USB host driver: received data gathered in one buffer until the
    application has processed it, and outgoing data cut into buffer-sized chunks. */
module UsbTransfer {
  import opened Bytes
  import opened Wrappers

  // ----- Receiving

  // What the application's callback answers; Absent if there is no callback.
  datatype Answer = Absent | Processed | More

  datatype Completion = Completion(data: seq<byte>, answer: Answer)

  // held: the bytes in front of the place the next transfer writes to.
  // request: how many bytes the next transfer may deliver.
  datatype Rx = Rx(held: seq<byte>, request: nat, overruns: nat)

  function Aligned(space: nat, mps: nat): (n: nat)
    requires mps > 0
    ensures n <= space < n + mps && n % mps == 0
  {
    AlignedDown(space, mps);
    space / mps * mps
  }

  lemma AlignedDown(space: nat, mps: nat)
    requires mps > 0
    ensures 0 <= space / mps * mps <= space < space / mps * mps + mps
    ensures (space / mps * mps) % mps == 0
    ensures space - space % mps == space / mps * mps
  {
    var q, r := space / mps, space % mps;
    assert space == mps * q + r && mps * q == q * mps;
    MultipleOf(q, mps);
  }

  lemma MultipleOf(q: nat, mps: nat)
    requires mps > 0
    ensures (q * mps) % mps == 0
  {
    var n := q * mps;
    var d := q - n / mps;
    assert n == mps * (n / mps) + n % mps;
    Grows(mps, d);
    assert mps * d == n % mps;
  }

  lemma Grows(m: int, d: int)
    requires m > 0
    ensures d >= 1 ==> m * d >= m
    ensures d <= -1 ==> m * d <= -m
  {
    if d >= 1 {
      assert m * d == m + m * (d - 1);
    } else if d <= -1 {
      assert m * d == -m + m * (d + 1);
    }
  }

  function Fresh(size: nat, mps: nat, overruns: nat): Rx
    requires mps > 0
  {
    Rx([], Aligned(size, mps), overruns)
  }

  function Complete(rx: Rx, c: Completion, size: nat, mps: nat): Rx
    requires mps > 0 && |rx.held| + |c.data| <= size
  {
    match c.answer
    case Absent => rx
    case Processed => Fresh(size, mps, rx.overruns)
    case More =>
      var held := rx.held + c.data;
      var request := Aligned(size - |held|, mps);
      if request == 0 then Fresh(size, mps, rx.overruns + 1) else rx.(held := held, request := request)
  }

  class InTransfer {
    const size: nat
    const mps: nat
    const buffer: array<byte>
    var offset: nat
    var numBytes: nat
    var overruns: nat

    ghost predicate Good()
      reads this
    {
      buffer.Length == size && mps > 0 && offset + numBytes <= size
    }

    function Abs(): Rx
      reads this, buffer
      requires Good()
    {
      Rx(buffer[..offset], numBytes, overruns)
    }

    // The first request is the length asked for, which the allocated size may exceed.
    constructor (requested: nat, capacity: nat, packet: nat)
      requires 0 < requested <= capacity && packet > 0
      ensures Good() && size == capacity && mps == packet
      ensures Abs() == Rx([], requested, 0)
      ensures fresh(buffer)
    {
      size, mps, buffer := capacity, packet, new byte[capacity](_ => 0);
      offset, numBytes, overruns := 0, requested, 0;
    }

    method Reset()
      requires Good()
      modifies this
      ensures Good() && Abs() == Fresh(size, mps, old(overruns))
    {
      AlignedDown(size, mps);
      offset := 0;
      numBytes := size;
      numBytes := numBytes - size % mps;
    }

    // The controller has put c.data at the place of the transfer; the callback answers c.answer.
    method InXferCb(c: Completion)
      requires Good() && |c.data| <= numBytes
      modifies this, buffer
      ensures Good() && Abs() == Complete(old(Abs()), c, size, mps)
    {
      ghost var before := buffer[..offset];
      for i := 0 to |c.data|
        invariant Good() && offset == old(offset) && numBytes == old(numBytes) && overruns == old(overruns)
        invariant buffer[..offset + i] == before + c.data[..i]
      {
        buffer[offset + i] := c.data[i];
        assert buffer[..offset + i + 1] == buffer[..offset + i] + [c.data[i]];
      }
      assert buffer[..offset + |c.data|] == before + c.data;
      assert buffer[..offset] == buffer[..offset + |c.data|][..offset] == before;
      match c.answer
      case Absent =>
      case Processed => Reset();
      case More =>
        offset := offset + |c.data|;
        var spaceLeft := size - offset;
        AlignedDown(spaceLeft, mps);
        numBytes := spaceLeft / mps * mps;
        if numBytes == 0 {
          overruns := overruns + 1;
          Reset();
        }
    }
  }

  // Every completion delivers at most what was requested.
  ghost predicate IsRun(cs: seq<Completion>, first: Rx, size: nat, mps: nat)
    requires mps > 0 && |first.held| + first.request <= size
    decreases |cs|, 0
  {
    cs == [] ||
    (IsRun(cs[..|cs| - 1], first, size, mps) &&
     var rx := After(cs[..|cs| - 1], first, size, mps);
     |cs[|cs| - 1].data| <= rx.request)
  }

  // The bounds a buffer of this size needs hold after every run.
  ghost function After(cs: seq<Completion>, first: Rx, size: nat, mps: nat): (rx: Rx)
    requires mps > 0 && |first.held| + first.request <= size && IsRun(cs, first, size, mps)
    ensures |rx.held| + rx.request <= size
    decreases |cs|, 1
  {
    if cs == [] then first
    else Complete(After(cs[..|cs| - 1], first, size, mps), cs[|cs| - 1], size, mps)
  }

  ghost function Joined(cs: seq<Completion>): seq<byte> {
    if cs == [] then [] else Joined(cs[..|cs| - 1]) + cs[|cs| - 1].data
  }

  // A callback's answer is an overrun exactly if less than one packet fits behind what is kept;
  // the next request is then the largest multiple of the packet size that fits.
  lemma AfterCallback(rx: Rx, c: Completion, size: nat, mps: nat)
    requires mps > 0 && |rx.held| + |c.data| <= size && c.answer != Absent
    ensures var next := Complete(rx, c, size, mps);
      && next.request % mps == 0
      && next.request <= size - |next.held| < next.request + mps
      && (next.request > 0 <==> mps <= size)
      && (next.overruns != rx.overruns <==> c.answer == More && size - |rx.held| - |c.data| < mps)
  {
    var room := size - |rx.held| - |c.data|;
    MultipleAtLeast(Aligned(room, mps), mps);
    MultipleAtLeast(Aligned(size, mps), mps);
  }

  lemma MultipleAtLeast(n: nat, mps: nat)
    requires mps > 0 && n % mps == 0
    ensures n == 0 || n >= mps
  {
  }

  // Completion k emptied the buffer: its data was processed or did not leave room.
  ghost predicate Empties(cs: seq<Completion>, k: nat, first: Rx, size: nat, mps: nat)
    requires mps > 0 && |first.held| + first.request <= size && IsRun(cs, first, size, mps) && k < |cs|
  {
    RunPrefix(cs, k, first, size, mps);
    RunPrefix(cs, k + 1, first, size, mps);
    || cs[k].answer == Processed
    || After(cs[..k], first, size, mps).overruns < After(cs[..k + 1], first, size, mps).overruns
  }

  lemma {:induction false} RunPrefix(cs: seq<Completion>, k: nat, first: Rx, size: nat, mps: nat)
    requires mps > 0 && |first.held| + first.request <= size && IsRun(cs, first, size, mps) && k <= |cs|
    ensures IsRun(cs[..k], first, size, mps)
    decreases |cs|
  {
    if k == |cs| {
      assert cs[..k] == cs;
    } else {
      assert cs[..|cs| - 1][..k] == cs[..k];
      RunPrefix(cs[..|cs| - 1], k, first, size, mps);
    }
  }

  // The data of the completions from i on is what the buffer holds, and completion i - 1, if
  // there is one, emptied it.
  ghost predicate HeldSince(cs: seq<Completion>, i: nat, first: Rx, size: nat, mps: nat)
    requires mps > 0 && |first.held| + first.request <= size && IsRun(cs, first, size, mps)
  {
    && i <= |cs|
    && After(cs, first, size, mps).held == Joined(cs[i..])
    && (forall k :: i <= k < |cs| ==> cs[k].answer == More)
    && (i > 0 ==> Empties(cs, i - 1, first, size, mps))
  }

  // With a callback that answers every time, the buffer always holds everything received since it
  // was last emptied, in order.
  lemma {:induction false} HoldsAllSinceEmptied(cs: seq<Completion>, first: Rx, size: nat, mps: nat)
    requires mps > 0 && first.held == [] && first.request <= size && IsRun(cs, first, size, mps)
    requires forall k :: 0 <= k < |cs| ==> cs[k].answer != Absent
    ensures exists i: nat :: HeldSince(cs, i, first, size, mps)
    decreases |cs|
  {
    if cs == [] {
      assert HeldSince(cs, 0, first, size, mps);
    } else {
      var init, c := cs[..|cs| - 1], cs[|cs| - 1];
      HoldsAllSinceEmptied(init, first, size, mps);
      var i: nat :| HeldSince(init, i, first, size, mps);
      HeldStep(cs, i, first, size, mps);
    }
  }

  lemma Snoc(cs: seq<Completion>, first: Rx, size: nat, mps: nat)
    requires mps > 0 && |first.held| + first.request <= size && cs != [] && IsRun(cs, first, size, mps)
    ensures IsRun(cs[..|cs| - 1], first, size, mps)
    ensures var rx, next := After(cs[..|cs| - 1], first, size, mps), After(cs, first, size, mps);
      match cs[|cs| - 1].answer
      case Absent => next == rx
      case Processed => next.held == []
      case More => if next.overruns == rx.overruns then next.held == rx.held + cs[|cs| - 1].data
                   else next.held == [] && next.overruns > rx.overruns
  {
  }

  // An emptying stays one when more completions follow.
  lemma EmptiesLater(cs: seq<Completion>, k: nat, first: Rx, size: nat, mps: nat)
    requires mps > 0 && |first.held| + first.request <= size && cs != [] && IsRun(cs, first, size, mps)
    requires IsRun(cs[..|cs| - 1], first, size, mps) && k < |cs| - 1
    requires Empties(cs[..|cs| - 1], k, first, size, mps)
    ensures Empties(cs, k, first, size, mps)
  {
    hide IsRun, After, Complete;
    var init := cs[..|cs| - 1];
    RunPrefix(cs, k, first, size, mps);
    RunPrefix(cs, k + 1, first, size, mps);
    assert init[..k] == cs[..k] && init[..k + 1] == cs[..k + 1];
  }

  lemma HeldMore(cs: seq<Completion>, i: nat, first: Rx, size: nat, mps: nat)
    requires mps > 0 && |first.held| + first.request <= size && cs != [] && IsRun(cs, first, size, mps)
    requires IsRun(cs[..|cs| - 1], first, size, mps) && HeldSince(cs[..|cs| - 1], i, first, size, mps)
    requires cs[|cs| - 1].answer == More
    requires After(cs, first, size, mps).held
          == After(cs[..|cs| - 1], first, size, mps).held + cs[|cs| - 1].data
    ensures HeldSince(cs, i, first, size, mps)
  {
    hide IsRun, After, Complete;
    var init := cs[..|cs| - 1];
    assert cs[i..][..|cs[i..]| - 1] == init[i..];
    if i > 0 {
      EmptiesLater(cs, i - 1, first, size, mps);
    }
  }

  lemma HeldEmptied(cs: seq<Completion>, first: Rx, size: nat, mps: nat)
    requires mps > 0 && |first.held| + first.request <= size && cs != [] && IsRun(cs, first, size, mps)
    requires After(cs, first, size, mps).held == [] && Empties(cs, |cs| - 1, first, size, mps)
    ensures HeldSince(cs, |cs|, first, size, mps)
  {
    hide IsRun, After, Empties;
    assert cs[|cs|..] == [];
  }

  lemma HeldStep(cs: seq<Completion>, i: nat, first: Rx, size: nat, mps: nat)
    requires mps > 0 && |first.held| + first.request <= size && cs != [] && IsRun(cs, first, size, mps)
    requires HeldSince(cs[..|cs| - 1], i, first, size, mps) && cs[|cs| - 1].answer != Absent
    ensures exists k: nat :: HeldSince(cs, k, first, size, mps)
  {
    Snoc(cs, first, size, mps);
    hide IsRun, After, Complete, HeldSince;
    var init, c := cs[..|cs| - 1], cs[|cs| - 1];
    if c.answer == More && After(cs, first, size, mps).overruns == After(init, first, size, mps).overruns {
      HeldMore(cs, i, first, size, mps);
    } else {
      assert cs[..|cs|] == cs;
      assert Empties(cs, |cs| - 1, first, size, mps);
      HeldEmptied(cs, first, size, mps);
    }
  }

  // A message that arrives in pieces the application keeps asking to extend is gathered whole,
  // with no overrun, exactly if it leaves room for one more packet.
  lemma {:induction false} GatheredIffRoomLeft(cs: seq<Completion>, first: Rx, size: nat, mps: nat)
    requires mps > 0 && first.held == [] && first.request <= size && IsRun(cs, first, size, mps)
    requires cs != [] && forall k :: 0 <= k < |cs| ==> cs[k].answer == More
    ensures var rx := After(cs, first, size, mps);
      && first.overruns <= rx.overruns
      && (rx.overruns == first.overruns <==> |Joined(cs)| + mps <= size)
      && (rx.overruns == first.overruns ==> rx.held == Joined(cs))
    decreases |cs|
  {
    var init, c := cs[..|cs| - 1], cs[|cs| - 1];
    var rx := After(init, first, size, mps);
    AfterCallback(rx, c, size, mps);
    if init != [] {
      GatheredIffRoomLeft(init, first, size, mps);
    } else {
      assert Joined(cs) == c.data;
    }
  }

  // ----- Sending

  datatype TxError = InvalidArg | NotSupported | Timeout | InvalidResponse | Rejected(code: int)
  datatype TxStatus = Sent | Failed(error: TxError)

  // What the host stack does with one chunk: the code its submission returns (0 is success),
  // whether the wait ended before its limit, the tick count then, and the completed transfer.
  datatype ChunkResult = ChunkResult(submit: int, taken: bool, ticks: u32, completed: bool, actual: nat)

  // The ticks left, as the signed 32-bit difference the code computes.
  function Remaining(timeout: u32, start: u32, now: u32): int {
    Signed(Wrap(timeout - Wrap(now - start)))
  }

  function Signed(x: u32): int {
    if x < 0x8000_0000 then x else x - TWO32
  }

  // The chunk was submitted, its end was awaited in time, and all of its bytes were transferred.
  predicate SentWhole(c: ChunkResult, length: nat, timeout: u32, start: u32) {
    && c.submit == 0 && c.taken && Remaining(timeout, start, c.ticks) >= 0
    && c.completed && c.actual == length
  }

  function Chunks(data: seq<byte>, room: nat): seq<seq<byte>>
    requires room > 0
  {
    if data == [] then []
    else if |data| <= room then [data]
    else [data[..room]] + Chunks(data[room..], room)
  }

  // The chunks in order are the data, and all but the last fill the buffer.
  lemma {:induction false} ChunksAreData(data: seq<byte>, room: nat)
    requires room > 0
    ensures var parts := Chunks(data, room);
      && Flatten(parts) == data
      && (parts == [] <==> data == [])
      && (forall k :: 0 <= k < |parts| - 1 ==> |parts[k]| == room)
      && (parts != [] ==> 0 < |parts[|parts| - 1]| <= room)
    decreases |data|
  {
    hide Flatten;
    if |data| > room {
      ChunksAreData(data[room..], room);
      FlattenFront(data[..room], Chunks(data[room..], room));
      TakeAndDrop(data, room);
    } else {
      FlattenFront(data, []);
      TakeAndDrop([data], 1);
    }
  }

  ghost predicate AllSent(parts: seq<seq<byte>>, n: nat, stack: nat -> ChunkResult, timeout: u32, start: u32)
    requires n <= |parts|
  {
    forall k: nat {:trigger stack(k)} :: k < n ==> SentWhole(stack(k), |parts[k]|, timeout, start)
  }

  // The limit chunk k is given: what is left after the chunk before it.
  function LimitOf(k: nat, stack: nat -> ChunkResult, timeout: u32, start: u32): int {
    if k == 0 then Signed(timeout) else Remaining(timeout, start, stack(k - 1).ticks)
  }

  ghost predicate LimitsFollow(limits: seq<int>, stack: nat -> ChunkResult, timeout: u32, start: u32) {
    forall k :: 0 <= k < |limits| ==> limits[k] == LimitOf(k, stack, timeout, start)
  }

  lemma NextChunk(parts: seq<seq<byte>>, n: nat, data: seq<byte>, at: nat, room: nat)
    requires room > 0 && n <= |parts| && at < |data| && parts[n..] == Chunks(data[at..], room)
    ensures var size := if |data| - at > room then room else |data| - at;
      && n < |parts| && parts[n] == data[at..at + size]
      && parts[n + 1..] == Chunks(data[at + size..], room)
      && parts[..n + 1] == parts[..n] + [data[at..at + size]]
  {
    var size := if |data| - at > room then room else |data| - at;
    var rest := Chunks(data[at..], room);
    assert parts[n] == rest[0] == data[at..at + size];
    assert data[at..][size..] == data[at + size..];
    assert parts[n + 1..] == rest[1..];
  }

  // stack(k) answers the k-th chunk handed over; submitted are the chunks that were handed over and
  // limits the ticks each was given.
  method DataTxBlocking(data: seq<byte>, room: Option<nat>, timeout: u32, start: u32, mutexTaken: bool,
                        stack: nat -> ChunkResult)
    returns (r: TxStatus, submitted: seq<seq<byte>>, limits: seq<int>)
    requires room.Some? ==> room.value > 0
    ensures data == [] ==> r == Failed(InvalidArg) && submitted == []
    ensures data != [] && room.None? ==> r == Failed(NotSupported) && submitted == []
    ensures data != [] && room.Some? && !mutexTaken ==> r == Failed(Timeout) && submitted == []
    ensures data != [] && room.Some? && mutexTaken ==>
      var parts := Chunks(data, room.value);
      && 0 < |submitted| == |limits| <= |parts| && submitted == parts[..|submitted|]
      && (r == Sent <==> AllSent(parts, |parts|, stack, timeout, start))
      && (r == Sent ==> submitted == parts)
      && AllSent(parts, |submitted| - 1, stack, timeout, start)
      && LimitsFollow(limits, stack, timeout, start)
      && var last, inTime := stack(|submitted| - 1), Remaining(timeout, start, stack(|submitted| - 1).ticks) >= 0;
      && (r == Failed(Rejected(last.submit)) <==> last.submit != 0)
      && (r == Failed(Timeout) <==> last.submit == 0 && (!last.taken || !inTime))
      && (r == Failed(InvalidResponse) <==>
            && last.submit == 0 && last.taken && inTime
            && (!last.completed || last.actual != |submitted[|submitted| - 1]|))
  {
    hide Remaining, Signed, Chunks;
    submitted, limits := [], [];
    if data == [] {
      return Failed(InvalidArg), [], [];
    }
    if room.None? {
      return Failed(NotSupported), [], [];
    }
    if !mutexTaken {
      return Failed(Timeout), [], [];
    }
    var bufferSize := room.value;
    ghost var parts := Chunks(data, bufferSize);
    ChunksAreData(data, bufferSize);
    var remaining, at := |data|, 0;
    var limit := Signed(timeout);
    while remaining > 0
      invariant 0 <= remaining && at + remaining == |data| && |limits| == |submitted| <= |parts|
      invariant submitted == parts[..|submitted|] && parts[|submitted|..] == Chunks(data[at..], bufferSize)
      invariant AllSent(parts, |submitted|, stack, timeout, start)
      invariant limit == LimitOf(|submitted|, stack, timeout, start)
      invariant LimitsFollow(limits, stack, timeout, start)
    {
      var size := if remaining > bufferSize then bufferSize else remaining;
      var chunk := data[at..at + size];
      NextChunk(parts, |submitted|, data, at, bufferSize);
      var answer := stack(|submitted|);
      submitted, limits := submitted + [chunk], limits + [limit];
      if answer.submit != 0 {
        return Failed(Rejected(answer.submit)), submitted, limits;
      }
      limit := Remaining(timeout, start, answer.ticks);
      if !answer.taken || limit < 0 {
        return Failed(Timeout), submitted, limits;
      }
      if !answer.completed || answer.actual != size {
        return Failed(InvalidResponse), submitted, limits;
      }
      remaining, at := remaining - size, at + size;
    }
    ChunksAreData(data[at..], bufferSize);
    return Sent, submitted, limits;
  }

  // The signed difference reports time left exactly for these readings: an expired limit is missed
  // only beyond 2^31 ticks, and a limit of 2^31 ticks or more is refused while it still runs. In time
  // and with a limit below 2^31, it is what is left of the limit.
  lemma InTimeIff(timeout: u32, start: u32, now: u32)
    ensures var elapsed := Wrap(now - start);
      Remaining(timeout, start, now) >= 0
      <==> (elapsed <= timeout && timeout - elapsed < 0x8000_0000) || elapsed - timeout > 0x8000_0000
    ensures timeout < 0x8000_0000 ==> Signed(timeout) == timeout
    ensures var elapsed := Wrap(now - start);
      elapsed <= timeout < 0x8000_0000 ==> Remaining(timeout, start, now) == timeout - elapsed
  {
    var elapsed := Wrap(now - start);
    if elapsed <= timeout {
      assert Wrap(timeout - elapsed) == timeout - elapsed;
    } else {
      assert Wrap(timeout - elapsed) == timeout - elapsed + TWO32;
    }
  }
}
