/** What the codec promises over whole byte streams: the decoder reads exactly the frames of
    the batch reading, undoes the encoder from any state, and keeps its counters balanced. */
module HmuStream {
  import opened Bytes
  import opened Crc16
  import opened HmuFrame
  import opened HmuDecoder

  // ----- Feeding in pieces

  lemma {:induction false} ConsumeAppend(s: State, a: seq<byte>, b: seq<byte>)
    requires CoreValid(s.core)
    ensures Consume(s, a + b) ==
      (Consume(Consume(s, a).0, b).0, Consume(s, a).1 + Consume(Consume(s, a).0, b).1)
    decreases b
  {
    hide Step;
    if b == [] {
      assert a + b == a;
      assert Consume(s, a).1 + [] == Consume(s, a).1;
    } else {
      var init, last := b[..|b| - 1], b[|b| - 1];
      assert (a + b)[..|a + b| - 1] == a + init;
      ConsumeAppend(s, a, init);
      var f, g := Consume(s, a).1, Consume(Consume(s, a).0, init).1;
      var h := Step(Consume(s, a + init).0, last).1;
      assert (f + g) + h == f + (g + h);
    }
  }

  function ConsumeChunks(s: State, chunks: seq<seq<byte>>): (State, seq<Frame>)
    requires CoreValid(s.core)
    decreases chunks
  {
    if chunks == [] then (s, [])
    else
      var (s1, f1) := Consume(s, chunks[0]);
      var (s2, f2) := ConsumeChunks(s1, chunks[1..]);
      (s2, f1 + f2)
  }

  // How the stream is cut into feed calls makes no difference.
  lemma {:induction false} CuttingIsInvisible(s: State, chunks: seq<seq<byte>>)
    requires CoreValid(s.core)
    ensures ConsumeChunks(s, chunks) == Consume(s, Flatten(chunks))
    decreases chunks
  {
    if chunks == [] {
    } else {
      CuttingIsInvisible(Consume(s, chunks[0]).0, chunks[1..]);
      ConsumeAppend(s, chunks[0], Flatten(chunks[1..]));
    }
  }

  // ----- The batch reading of a stream

  // The pieces between magic bytes; the first piece is what precedes any magic byte.
  function Split(data: seq<byte>): (pieces: seq<seq<byte>>)
    ensures |pieces| > 0
  {
    if data == [] then [[]]
    else
      var rest := Split(data[1..]);
      if data[0] == MAGIC then [[]] + rest else [[data[0]] + rest[0]] + rest[1..]
  }

  // Length field of an unescaped segment.
  function LengthOf(u: seq<byte>): word
    requires |u| >= 2
  {
    Join(u[0], u[1])
  }

  // A segment carries a frame when it holds a legal length, that many bytes, and their CRC.
  predicate CarriesFrame(u: seq<byte>) {
    && |u| >= 2
    && 2 <= LengthOf(u) <= BODY_CAP
    && |u| >= LengthOf(u) + 4
    && Accepted([MAGIC] + u[..LengthOf(u) + 4])
  }

  function FrameIn(u: seq<byte>): (frames: seq<Frame>) {
    if CarriesFrame(u) then [Frame(u[2], u[3], u[4..LengthOf(u) + 2])] else []
  }

  function SegmentFrames(segment: seq<byte>): seq<Frame> {
    FrameIn(Unescape(segment))
  }

  function AllFrames(segments: seq<seq<byte>>): seq<Frame> {
    if segments == [] then []
    else AllFrames(segments[..|segments| - 1]) + SegmentFrames(segments[|segments| - 1])
  }

  function Batch(data: seq<byte>): seq<Frame> {
    AllFrames(Split(data)[1..])
  }

  // ----- Where the decoder stands inside a segment

  function Place(u: seq<byte>, esc: bool): Core {
    if |u| == 0 then Core(LenHi, esc, 0, [], 0)
    else if |u| == 1 then Core(LenLo, esc, Join(u[0], 0), [], 0)
    else
      var length := LengthOf(u);
      if length < 2 || length > BODY_CAP then IDLE
      else if |u| < length + 2 then Core(InBody, esc, length, u[2..], 0)
      else if |u| == length + 2 then Core(CrcHi, esc, length, u[2..], 0)
      else if |u| == length + 3 then Core(CrcLo, esc, length, u[2..length + 2], u[length + 2])
      else IDLE
  }

  function Within(segment: seq<byte>): Core {
    Place(Unescape(segment), Dangling(segment))
  }

  lemma WithinValid(segment: seq<byte>)
    ensures CoreValid(Within(segment))
  {
  }

  // The decoder's CRC comparison is the acceptance of the checked message.
  lemma WantedIsAccepted(u: seq<byte>, length: word, crcHi: byte, crcLo: byte)
    requires |u| == length + 4 && length == LengthOf(u) && length >= 2
    requires crcHi == u[length + 2] && crcLo == u[length + 3]
    ensures Join(crcHi, crcLo) == Wanted(length, u[2..length + 2]) <==> Accepted([MAGIC] + u)
  {
    var m := [MAGIC] + u;
    assert m[..|m| - 2] == [MAGIC, Hi(length), Lo(length)] + u[2..length + 2] by {
      assert m[..|m| - 2] == [MAGIC, u[0], u[1]] + u[2..length + 2];
    }
    assert m[|m| - 2] == crcHi && m[|m| - 1] == crcLo;
  }

  lemma TailMore<T>(u: seq<T>, b: T, n: nat)
    requires n <= |u|
    ensures (u + [b])[n..] == u[n..] + [b]
  {
  }

  // One unescaped byte more.
  lemma TakePlace(u: seq<byte>, stats: Stats, esc: bool, b: byte)
    requires Place(u, esc).phase != HuntMagic
    ensures CoreValid(Place(u, esc))
    ensures Take(State(Place(u, esc), stats), b).0.core == Place(u + [b], false)
    ensures Take(State(Place(u, esc), stats), b).1 == FrameIn(u + [b])
    ensures FrameIn(u) == []
  {
    hide Accepted, Wanted, Crc;
    var v := u + [b];
    if |u| == 0 {
      assert v == [b];
    } else if |u| >= 2 {
      var length := LengthOf(u);
      assert LengthOf(v) == length;
      if |u| == length + 3 {
        assert v[..length + 4] == v;
        assert v[2..length + 2] == u[2..length + 2];
        WantedIsAccepted(v, length, u[length + 2], b);
      } else if |u| < length + 2 {
        TailMore(u, b, 2);
      }
    }
  }

  // Bytes after a complete or broken frame change nothing.
  lemma PlaceIdle(u: seq<byte>, esc: bool, b: byte)
    requires Place(u, esc).phase == HuntMagic
    ensures Place(u + [b], false) == Place(u, true) == Place(u, false) == IDLE
    ensures FrameIn(u + [b]) == FrameIn(u)
  {
    assert LengthOf(u + [b]) == LengthOf(u);
    if LengthOf(u) >= 2 && |u| >= LengthOf(u) + 4 {
      assert (u + [b])[..LengthOf(u) + 4] == u[..LengthOf(u) + 4];
      assert (u + [b])[4..LengthOf(u) + 2] == u[4..LengthOf(u) + 2];
    }
  }

  lemma PlaceEscape(u: seq<byte>, esc: bool)
    requires Place(u, esc).phase != HuntMagic
    ensures Place(u, esc).escPending == esc
    ensures Place(u, true) == Place(u, esc).(escPending := true)
  {
  }

  // One raw byte more inside a segment.
  lemma StepWithin(segment: seq<byte>, stats: Stats, b: byte)
    requires b != MAGIC
    ensures CoreValid(Within(segment))
    ensures Step(State(Within(segment), stats), b).0.core == Within(segment + [b])
    ensures SegmentFrames(segment) + Step(State(Within(segment), stats), b).1
         == SegmentFrames(segment + [b])
  {
    WithinValid(segment);
    hide Take, Place, FrameIn, CoreValid;
    var u := Unescape(segment);
    UnescapeSnoc(segment, b);
    if Within(segment).phase != HuntMagic {
      PlaceEscape(u, Dangling(segment));
    }
    if Within(segment).phase == HuntMagic {
      var c := if Dangling(segment) then Masked(b) else b;
      PlaceIdle(u, Dangling(segment), c);
    } else if Dangling(segment) {
      TakePlace(u, stats, true, Masked(b));
    } else if b != ESCAPE {
      TakePlace(u, stats, false, b);
    }
    var frames := Step(State(Within(segment), stats), b).1;
    assert frames == [] ==> SegmentFrames(segment) + frames == SegmentFrames(segment);
    assert SegmentFrames(segment) == [] ==> SegmentFrames(segment) + frames == frames;
  }

  lemma StepOutside(s: State, b: byte)
    requires CoreValid(s.core)
    ensures Step(s, MAGIC).0.core == Within([]) && Step(s, MAGIC).1 == []
    ensures s.core == IDLE && b != MAGIC ==> Step(s, b).0.core == IDLE && Step(s, b).1 == []
  {
  }

  // A magic byte drops whatever was being read; then the segment is read by the book.
  lemma {:induction false} ConsumeSegment(s: State, segment: seq<byte>)
    requires CoreValid(s.core) && MagicFree(segment)
    ensures Consume(s, [MAGIC] + segment).0.core == Within(segment)
    ensures Consume(s, [MAGIC] + segment).1 == SegmentFrames(segment)
    decreases segment
  {
    var data := [MAGIC] + segment;
    if segment == [] {
      assert data[..0] == [];
    } else {
      var init, last := segment[..|segment| - 1], segment[|segment| - 1];
      assert data[..|data| - 1] == [MAGIC] + init;
      assert segment == init + [last];
      ConsumeSegment(s, init);
      StepWithin(init, Consume(s, [MAGIC] + init).0.stats, last);
    }
  }

  lemma {:induction false} ConsumeIdle(s: State, noise: seq<byte>)
    requires s.core == IDLE && MagicFree(noise)
    ensures Consume(s, noise).0.core == IDLE && Consume(s, noise).1 == []
    decreases noise
  {
    if noise == [] {
    } else {
      ConsumeIdle(s, noise[..|noise| - 1]);
    }
  }

  // ----- The decoder refines the batch reading

  // The pieces after one byte more.
  function Extend(pieces: seq<seq<byte>>, b: byte): seq<seq<byte>>
    requires |pieces| > 0
  {
    var n := |pieces| - 1;
    if b == MAGIC then pieces + [[]] else pieces[..n] + [pieces[n] + [b]]
  }

  lemma ExtendFront(first: byte, rest: seq<seq<byte>>, b: byte)
    requires |rest| > 0
    ensures Extend([[first] + rest[0]] + rest[1..], b)
         == [[first] + Extend(rest, b)[0]] + Extend(rest, b)[1..]
    ensures Extend([[]] + rest, b) == [[]] + Extend(rest, b)
  {
    var pieces, n := [[first] + rest[0]] + rest[1..], |rest| - 1;
    assert ([[]] + rest)[..n + 1] == [[]] + rest[..n];
    if b == MAGIC {
      assert (rest + [[]])[1..] == rest[1..] + [[]];
    } else if n == 0 {
      assert ([first] + rest[0]) + [b] == [first] + (rest[0] + [b]);
    } else {
      assert pieces[..n] == [[first] + rest[0]] + rest[1..n];
      assert (rest[..n] + [rest[n] + [b]])[1..] == rest[1..n] + [rest[n] + [b]];
    }
  }

  lemma {:induction false} SplitSnoc(data: seq<byte>, b: byte)
    ensures Split(data + [b]) == Extend(Split(data), b)
  {
    if data == [] {
      assert data + [b] == [b] && [b][1..] == [];
      assert [] + [b] == [b] + [];
    } else {
      assert (data + [b])[1..] == data[1..] + [b];
      SplitSnoc(data[1..], b);
      ExtendFront(data[0], Split(data[1..]), b);
    }
  }

  lemma {:induction false} SplitMagicFree(data: seq<byte>)
    ensures forall i :: 0 <= i < |Split(data)| ==> MagicFree(Split(data)[i])
  {
    if data == [] {
    } else {
      SplitMagicFree(data[1..]);
    }
  }

  lemma AllFramesLast(segments: seq<seq<byte>>, last: seq<byte>)
    ensures AllFrames(segments + [last]) == AllFrames(segments) + SegmentFrames(last)
  {
    hide SegmentFrames;
    assert (segments + [last])[..|segments|] == segments;
  }

  lemma AllFramesSnoc(before: seq<seq<byte>>, after: seq<seq<byte>>, b: byte)
    requires |before| > 0
    requires after == Extend(before, b)
    ensures |before| == 1 && b != MAGIC ==> AllFrames(after[1..]) == AllFrames(before[1..]) == []
    ensures b == MAGIC ==> AllFrames(after[1..]) == AllFrames(before[1..])
    ensures |before| > 1 && b != MAGIC ==>
      var n := |before| - 1;
      && AllFrames(before[1..]) == AllFrames(before[1..n]) + SegmentFrames(before[n])
      && AllFrames(after[1..]) == AllFrames(before[1..n]) + SegmentFrames(before[n] + [b])
  {
    var n := |before| - 1;
    assert Unescape([]) == [];
    if b == MAGIC {
      assert after[1..][..n] == before[1..];
      assert AllFrames(before[1..]) + [] == AllFrames(before[1..]);
    } else if n > 0 {
      assert before[1..] == before[1..n] + [before[n]];
      assert after[1..] == before[1..n] + [before[n] + [b]];
      AllFramesLast(before[1..n], before[n]);
      AllFramesLast(before[1..n], before[n] + [b]);
    }
  }

  // Where the batch reading leaves the decoder.
  function BatchCore(data: seq<byte>): Core {
    var pieces := Split(data);
    if |pieces| == 1 then IDLE else Within(pieces[|pieces| - 1])
  }

  // The decoder where the batch reading says stays there over one byte more.
  lemma StepFollowsBatch(init: seq<byte>, s: State, b: byte)
    requires s.core == BatchCore(init) && CoreValid(s.core)
    ensures Step(s, b).0.core == BatchCore(init + [b])
    ensures Batch(init) + Step(s, b).1 == Batch(init + [b])
  {
    hide Step, SegmentFrames, AllFrames, Within, Split, CoreValid;
    SplitSnoc(init, b);
    var before, after := Split(init), Split(init + [b]);
    var n := |before| - 1;
    StepOutside(s, b);
    AllFramesSnoc(before, after, b);
    if b != MAGIC && n > 0 {
      StepWithin(before[n], s.stats, b);
    }
    var more := Step(s, b).1;
    if b == MAGIC || n == 0 {
      assert Batch(init) + [] == Batch(init);
    } else {
      var earlier := AllFrames(before[1..n]);
      assert (earlier + SegmentFrames(before[n])) + more == earlier + (SegmentFrames(before[n]) + more);
    }
  }

  // Started from scratch, the decoder delivers exactly the frames of the batch reading.
  lemma {:induction false} DecoderRefinesBatch(data: seq<byte>)
    ensures Consume(INITIAL, data).0.core == BatchCore(data)
    ensures Consume(INITIAL, data).1 == Batch(data)
  {
    hide Step, BatchCore, AllFrames;
    if data == [] {
      EmptyBatch();
    } else {
      var init, b := data[..|data| - 1], data[|data| - 1];
      assert data == init + [b];
      DecoderRefinesBatch(init);
      StepFollowsBatch(init, Consume(INITIAL, init).0, b);
    }
  }

  lemma EmptyBatch()
    ensures Split([]) == [[]] && BatchCore([]) == IDLE && Batch([]) == []
  {
  }

  // The same over any way of cutting the stream into feed calls.
  lemma DecoderRefinesBatchInPieces(chunks: seq<seq<byte>>)
    ensures ConsumeChunks(INITIAL, chunks).1 == Batch(Flatten(chunks))
  {
    CuttingIsInvisible(INITIAL, chunks);
    DecoderRefinesBatch(Flatten(chunks));
  }

  // A segment yields at most one frame, so a stream yields at most one per magic byte.
  lemma {:induction false} AtMostOneFrameEach(segments: seq<seq<byte>>)
    ensures |AllFrames(segments)| <= |segments|
  {
    if segments == [] {
    } else {
      AtMostOneFrameEach(segments[..|segments| - 1]);
    }
  }

  // ----- Round trip

  // The checked content of a frame reads back as that frame, with nothing left over.
  lemma ContentReadsBack(f: Frame)
    requires Encodable(f)
    ensures CarriesFrame(Checked(Content(f)))
    ensures |Checked(Content(f))| == LengthOf(Checked(Content(f))) + 4
    ensures f == Frame(Checked(Content(f))[2], Checked(Content(f))[3],
                       Checked(Content(f))[4..LengthOf(Checked(Content(f))) + 2])
  {
    hide Crc;
    var content := Content(f);
    var u := Checked(content);
    var length := 2 + |f.payload|;
    assert u[0] == Hi(length) && u[1] == Lo(length);
    assert LengthOf(u) == length;
    assert u[..length + 4] == u;
    var m := [MAGIC] + u;
    assert m[..|m| - 2] == [MAGIC] + content;
    assert u[4..length + 2] == f.payload;
  }

  // Whatever state the decoder is in, an encoded frame is delivered once, unchanged,
  // and the decoder ends up waiting for the next magic byte.
  lemma RoundTrip(s: State, f: Frame)
    requires CoreValid(s.core) && Encodable(f)
    ensures Consume(s, Encode(f)).1 == [f]
    ensures Consume(s, Encode(f)).0.core == IDLE
  {
    var u := Checked(Content(f));
    EscapeAllMagicFree(u);
    UnescapeEscapeAll(u);
    ConsumeSegment(s, EscapeAll(u));
    ContentReadsBack(f);
  }

  // Encoded frames, each followed by noise without a magic byte.
  function Transmission(items: seq<(Frame, seq<byte>)>): seq<byte>
    requires forall i :: 0 <= i < |items| ==> Encodable(items[i].0)
  {
    if items == [] then []
    else Encode(items[0].0) + items[0].1 + Transmission(items[1..])
  }

  function Senders(items: seq<(Frame, seq<byte>)>): (frames: seq<Frame>) {
    if items == [] then [] else [items[0].0] + Senders(items[1..])
  }

  lemma {:induction false} TransmissionDelivered(s: State, items: seq<(Frame, seq<byte>)>)
    requires CoreValid(s.core)
    requires forall i :: 0 <= i < |items| ==> Encodable(items[i].0) && MagicFree(items[i].1)
    ensures Consume(s, Transmission(items)).1 == Senders(items)
    decreases items
  {
    if items == [] {
    } else {
      var enc, noise, rest := Encode(items[0].0), items[0].1, Transmission(items[1..]);
      RoundTrip(s, items[0].0);
      DeliverOne(s, enc, items[0].0, noise, rest);
      TransmissionDelivered(Consume(s, enc + noise).0, items[1..]);
      hide Encode, Consume;
    }
  }

  lemma DeliverOne(s: State, enc: seq<byte>, f: Frame, noise: seq<byte>, rest: seq<byte>)
    requires CoreValid(s.core) && MagicFree(noise)
    requires Consume(s, enc).0.core == IDLE && Consume(s, enc).1 == [f]
    ensures Consume(s, enc + noise + rest).1 == [f] + Consume(Consume(s, enc + noise).0, rest).1
  {
    hide Consume, CoreValid;
    ConsumeIdle(Consume(s, enc).0, noise);
    ConsumeAppend(s, enc, noise);
    ConsumeAppend(s, enc + noise, rest);
    assert [f] + [] == [f];
  }

  // After any garbage the whole list arrives in order.
  lemma DeliveredAfterGarbage(s: State, garbage: seq<byte>, items: seq<(Frame, seq<byte>)>)
    requires CoreValid(s.core)
    requires forall i :: 0 <= i < |items| ==> Encodable(items[i].0) && MagicFree(items[i].1)
    ensures Consume(s, garbage + Transmission(items)).1 == Consume(s, garbage).1 + Senders(items)
  {
    ConsumeAppend(s, garbage, Transmission(items));
    TransmissionDelivered(Consume(s, garbage).0, items);
  }

  // No encoding is a prefix of another: the decoder would have to deliver both.
  lemma EncodingsPrefixFree(f: Frame, g: Frame)
    requires Encodable(f) && Encodable(g) && Encode(f) <= Encode(g)
    ensures f == g
  {
    var rest := Encode(g)[|Encode(f)|..];
    EncodeShape(g);
    assert Encode(g) == Encode(f) + rest;
    assert MagicFree(rest) by {
      forall i | 0 <= i < |rest| ensures rest[i] != MAGIC {
        assert rest[i] == Encode(g)[1..][|Encode(f)| - 1 + i];
      }
    }
    RoundTrip(INITIAL, f);
    RoundTrip(INITIAL, g);
    ConsumeAppend(INITIAL, Encode(f), rest);
    ConsumeIdle(Consume(INITIAL, Encode(f)).0, rest);
    assert [f] == [g];
  }

  // ----- Cut encodings

  // Unescaped bytes, counted double, and the pending escape grow with every raw byte.
  function Progress(p: seq<byte>): nat {
    2 * |Unescape(p)| + if Dangling(p) then 1 else 0
  }

  lemma {:induction false} ProgressGrows(p: seq<byte>, q: seq<byte>)
    ensures Unescape(p) <= Unescape(p + q) && Progress(p) + |q| <= Progress(p + q)
    decreases |q|
  {
    if q == [] {
      assert p + q == p;
    } else {
      var init, b := q[..|q| - 1], q[|q| - 1];
      assert p + q == (p + init) + [b];
      ProgressGrows(p, init);
      UnescapeSnoc(p + init, b);
    }
  }

  // Whatever state the decoder is in, an encoding that is cut short delivers nothing.
  lemma CutDeliversNothing(s: State, f: Frame, part: seq<byte>)
    requires CoreValid(s.core) && Encodable(f) && part <= Encode(f) && |part| < |Encode(f)|
    ensures Consume(s, part).1 == []
  {
    if part != [] {
      var u := Checked(Content(f));
      hide Checked, Content, Unescape, Dangling, EscapeAll, FrameIn, LengthOf, Within, Consume;
      var segment, rest := SplitPart(EscapeAll(u), part);
      EscapeAllMagicFree(u);
      UnescapeEscapeAll(u);
      ProgressGrows(segment, rest);
      ContentReadsBack(f);
      TooShort(u, Unescape(segment));
      ConsumeSegment(s, segment);
    }
  }

  lemma SplitPart(escaped: seq<byte>, part: seq<byte>) returns (segment: seq<byte>, rest: seq<byte>)
    requires part != [] && part <= [MAGIC] + escaped && |part| < |[MAGIC] + escaped|
    ensures part == [MAGIC] + segment && escaped == segment + rest && rest != []
    ensures MagicFree(escaped) ==> MagicFree(segment)
  {
    segment, rest := part[1..], escaped[|part| - 1..];
    assert part[0] == MAGIC;
    assert escaped == ([MAGIC] + escaped)[1..];
    assert forall i :: 0 <= i < |segment| ==> segment[i] == escaped[i];
  }

  lemma TooShort(u: seq<byte>, v: seq<byte>)
    requires v <= u && |v| < |u| && |u| >= 2 && |u| == LengthOf(u) + 4
    ensures FrameIn(v) == []
  {
  }

  // ----- Corruption

  // A segment that differs from an encoded frame only within sixteen consecutive bits behind
  // the length field is not delivered.
  lemma BurstNotDelivered(f: Frame, segment: seq<byte>, lo: nat)
    requires Encodable(f)
    requires var u, v := Checked(Content(f)), Unescape(segment);
      && |u| == |v| && u[..2] == v[..2] && u != v
      && forall i :: 0 <= i < 8 * |[MAGIC] + u| && !(lo <= i < lo + 16)
           ==> Bits([MAGIC] + u)[i] == Bits([MAGIC] + v)[i]
    ensures SegmentFrames(segment) == []
  {
    var u, v := Checked(Content(f)), Unescape(segment);
    ContentReadsBack(f);
    assert u[0] == u[..2][0] == v[0] && u[1] == u[..2][1] == v[1];
    assert u[..LengthOf(u) + 4] == u && v[..LengthOf(v) + 4] == v;
    assert ([MAGIC] + u)[1..] == u && ([MAGIC] + v)[1..] == v;
    BurstDetected([MAGIC] + u, [MAGIC] + v, lo);
  }

  // ----- Counters

  function MagicCount(data: seq<byte>): nat {
    if data == [] then 0
    else MagicCount(data[..|data| - 1]) + if data[|data| - 1] == MAGIC then 1 else 0
  }

  // Frames started: closed with one of three outcomes, or still open.
  function Ledger(s: State): nat {
    s.stats.framesOk + s.stats.crcErr + s.stats.truncated
    + if s.core.phase == HuntMagic then 0 else 1
  }

  lemma StepLedger(s: State, b: byte)
    requires CoreValid(s.core)
    ensures (Ledger(Step(s, b).0) - Ledger(s) - if b == MAGIC then 1 else 0) % TWO32 == 0
    ensures (Step(s, b).0.stats.framesOk - s.stats.framesOk - |Step(s, b).1|) % TWO32 == 0
  {
    IncDiff(s.stats.framesOk);
    IncDiff(s.stats.crcErr);
    IncDiff(s.stats.truncated);
    hide Inc, Wanted, Masked, Join;
    if s.core.phase != HuntMagic && b != MAGIC {
      TakeLedger(s, if s.core.escPending then Masked(b) else b);
    }
    hide Take;
  }

  lemma TakeLedger(s: State, b: byte)
    requires CoreValid(s.core) && s.core.phase != HuntMagic
    ensures (Ledger(Take(s, b).0) - Ledger(s)) % TWO32 == 0
    ensures (Take(s, b).0.stats.framesOk - s.stats.framesOk - |Take(s, b).1|) % TWO32 == 0
  {
    IncDiff(s.stats.framesOk);
    IncDiff(s.stats.crcErr);
    IncDiff(s.stats.truncated);
    hide Inc, Wanted, Join;
  }

  // The two ways a counter moves.
  lemma IncDiff(x: u32)
    ensures Inc(x) == x + 1 || (Inc(x) == 0 && x + 1 == TWO32)
  {
  }

  lemma SumOfMultiples(x: int, y: int, m: int)
    requires m == TWO32 && x % m == 0 && y % m == 0
    ensures (x + y) % m == 0
  {
  }

  // Every magic byte consumed is accounted for, and framesOk counts the callbacks (mod 2^32).
  lemma {:induction false} CountersBalance(s: State, data: seq<byte>)
    requires CoreValid(s.core)
    ensures (Ledger(Consume(s, data).0) - Ledger(s) - MagicCount(data)) % TWO32 == 0
    ensures (Consume(s, data).0.stats.framesOk - s.stats.framesOk - |Consume(s, data).1|) % TWO32 == 0
    decreases data
  {
    hide Step;
    if data == [] {
    } else {
      var init, b := data[..|data| - 1], data[|data| - 1];
      CountersBalance(s, init);
      var s1 := Consume(s, init).0;
      StepLedger(s1, b);
      var s2 := Step(s1, b).0;
      SumOfMultiples(Ledger(s1) - Ledger(s) - MagicCount(init),
                     Ledger(s2) - Ledger(s1) - if b == MAGIC then 1 else 0, TWO32);
      SumOfMultiples(s1.stats.framesOk - s.stats.framesOk - |Consume(s, init).1|,
                     s2.stats.framesOk - s1.stats.framesOk - |Step(s1, b).1|, TWO32);
    }
  }
}
