/** The streaming frame decoder: its step function on values, and the class that runs it in place. */
module HmuDecoder {
  import opened Bytes
  import opened Crc16
  import opened HmuFrame

  const BODY_CAP: nat := 2 + MAX_PAYLOAD

  datatype Phase = HuntMagic | LenHi | LenLo | InBody | CrcHi | CrcLo

  // What has been read of the current frame.
  datatype Core = Core(phase: Phase, escPending: bool, length: word, body: seq<byte>, crcHi: byte)

  datatype Stats = Stats(framesOk: u32, crcErr: u32, truncated: u32, skipped: u32)

  datatype State = State(core: Core, stats: Stats)

  const IDLE: Core := Core(HuntMagic, false, 0, [], 0)
  const INITIAL: State := State(IDLE, Stats(0, 0, 0, 0))

  predicate CoreValid(c: Core) {
    match c.phase
    case HuntMagic => c == IDLE
    case LenHi => c.length == 0 && c.body == [] && c.crcHi == 0
    case LenLo => c.length % 0x100 == 0 && c.body == [] && c.crcHi == 0
    case InBody => 2 <= c.length <= BODY_CAP && |c.body| < c.length && c.crcHi == 0
    case CrcHi => 2 <= c.length <= BODY_CAP && |c.body| == c.length && c.crcHi == 0
    case CrcLo => 2 <= c.length <= BODY_CAP && |c.body| == c.length
  }

  // The value the decoder compares the received CRC with.
  function Wanted(length: word, body: seq<byte>): word {
    Crc([MAGIC, Hi(length), Lo(length)] + body)
  }

  // One unescaped byte outside the hunt for a magic byte.
  function Take(s: State, b: byte): (r: (State, seq<Frame>))
    requires CoreValid(s.core) && s.core.phase != HuntMagic
    ensures CoreValid(r.0.core) && |r.1| <= 1
  {
    var c, t := s.core.(escPending := false), s.stats;
    match c.phase
    case HuntMagic => (s, [])
    case LenHi => (s.(core := c.(phase := LenLo, length := b * 0x100)), [])
    case LenLo =>
      var length: word := c.length + b;
      if length < 2 || length > BODY_CAP then
        (State(IDLE, t.(truncated := Inc(t.truncated))), [])
      else
        (s.(core := c.(phase := InBody, length := length)), [])
    case InBody =>
      var body := c.body + [b];
      (s.(core := c.(phase := if |body| >= c.length then CrcHi else InBody, body := body)), [])
    case CrcHi => (s.(core := c.(phase := CrcLo, crcHi := b)), [])
    case CrcLo =>
      if Join(c.crcHi, b) == Wanted(c.length, c.body) then
        (State(IDLE, t.(framesOk := Inc(t.framesOk))),
         [Frame(c.body[0], c.body[1], c.body[2..])])
      else
        (State(IDLE, t.(crcErr := Inc(t.crcErr))), [])
  }

  // One raw byte: the new state and the frames handed to the callback.
  function Step(s: State, raw: byte): (r: (State, seq<Frame>))
    requires CoreValid(s.core)
    ensures CoreValid(r.0.core) && |r.1| <= 1
  {
    var c, t := s.core, s.stats;
    if raw == MAGIC then
      var t' := if c.phase == HuntMagic then t
                else t.(truncated := Inc(t.truncated), skipped := Wrap(t.skipped + |c.body|));
      (State(IDLE.(phase := LenHi), t'), [])
    else if c.phase == HuntMagic then (s.(stats := t.(skipped := Inc(t.skipped))), [])
    else if c.escPending then Take(s, Masked(raw))
    else if raw == ESCAPE then (s.(core := c.(escPending := true)), [])
    else Take(s, raw)
  }

  // A whole stretch of raw bytes.
  function Consume(s: State, data: seq<byte>): (r: (State, seq<Frame>))
    requires CoreValid(s.core)
    ensures CoreValid(r.0.core)
    decreases data
  {
    if data == [] then (s, [])
    else
      var (s1, f1) := Consume(s, data[..|data| - 1]);
      var (s2, f2) := Step(s1, data[|data| - 1]);
      (s2, f1 + f2)
  }

  // ----- The decoder itself

  class Decoder {
    var phase: Phase
    var escPending: bool
    var length: word
    var bodyIdx: nat
    var body: array<byte>
    var crcHi: byte
    var framesOk: u32
    var framesCrcErr: u32
    var framesTruncated: u32
    var bytesSkipped: u32

    function AbsCore(): Core
      reads this, body
      requires bodyIdx <= body.Length
    {
      Core(phase, escPending, length, body[..bodyIdx], if phase == CrcLo then crcHi else 0)
    }

    function AbsStats(): Stats
      reads this
    {
      Stats(framesOk, framesCrcErr, framesTruncated, bytesSkipped)
    }

    ghost predicate Valid()
      reads this, body
    {
      body.Length == BODY_CAP && bodyIdx <= body.Length && CoreValid(AbsCore())
    }

    function Abs(): State
      reads this, body
      requires Valid()
    {
      State(AbsCore(), AbsStats())
    }

    constructor ()
      ensures Valid() && fresh(body) && Abs() == INITIAL
    {
      phase, escPending, length, bodyIdx, crcHi := HuntMagic, false, 0, 0, 0;
      framesOk, framesCrcErr, framesTruncated, bytesSkipped := 0, 0, 0, 0;
      body := new byte[BODY_CAP];
    }

    method Resync()
      modifies this
      ensures phase == HuntMagic && !escPending && length == 0 && bodyIdx == 0
      ensures body == old(body) && AbsStats() == old(AbsStats())
    {
      phase, escPending, length, bodyIdx := HuntMagic, false, 0, 0;
    }

    method StoreByte(b: byte)
      requires Valid() && phase == InBody && !escPending
      modifies this, body
      ensures Valid() && body == old(body)
      ensures (Abs(), []) == Take(old(Abs()), b)
    {
      ghost var read := body[..bodyIdx];
      body[bodyIdx] := b;
      bodyIdx := bodyIdx + 1;
      assert body[..bodyIdx] == read + [b];
      if bodyIdx >= length {
        phase := CrcHi;
      }
    }

    // The last byte of a frame: compare the CRC, deliver or count, start over.
    method CheckFrame(b: byte) returns (frames: seq<Frame>)
      requires Valid() && phase == CrcLo && !escPending
      modifies this
      ensures Valid() && body == old(body)
      ensures (Abs(), frames) == Take(old(Abs()), b)
    {
      frames := [];
      var got := Join(crcHi, b);
      var want := HmuCrc16([MAGIC, Hi(length), Lo(length)] + body[..length]);
      if got == want {
        framesOk := Inc(framesOk);
        frames := [Frame(body[0], body[1], body[2..length])];
        assert body[..length][2..] == body[2..length];
      } else {
        framesCrcErr := Inc(framesCrcErr);
      }
      Resync();
    }

    method TakeByte(b: byte) returns (frames: seq<Frame>)
      requires Valid() && phase != HuntMagic
      modifies this, body
      ensures Valid() && body == old(body)
      ensures (Abs(), frames) == Take(old(Abs()), b)
    {
      frames := [];
      escPending := false;
      match phase {
        case LenHi =>
          length := b * 0x100;
          phase := LenLo;
        case LenLo =>
          length := length + b;
          bodyIdx := 0;
          if length < 2 || length > body.Length {
            framesTruncated := Inc(framesTruncated);
            Resync();
          } else {
            phase := InBody;
          }
        case InBody =>
          StoreByte(b);
        case CrcHi =>
          crcHi := b;
          phase := CrcLo;
        case CrcLo =>
          frames := CheckFrame(b);
      }
    }

    method FeedByte(raw: byte) returns (frames: seq<Frame>)
      requires Valid()
      modifies this, body
      ensures Valid() && body == old(body)
      ensures (Abs(), frames) == Step(old(Abs()), raw)
    {
      frames := [];
      if raw == MAGIC {
        if phase != HuntMagic {
          framesTruncated := Inc(framesTruncated);
          bytesSkipped := Wrap(bytesSkipped + bodyIdx);
        }
        Resync();
        phase := LenHi;
      } else if phase == HuntMagic {
        bytesSkipped := Inc(bytesSkipped);
      } else if escPending {
        frames := TakeByte(Masked(raw));
      } else if raw == ESCAPE {
        escPending := true;
      } else {
        frames := TakeByte(raw);
      }
    }

    // The frames passed to the callback during one call, in order.
    method Feed(data: seq<byte>) returns (frames: seq<Frame>)
      requires Valid()
      modifies this, body
      ensures Valid() && body == old(body)
      ensures (Abs(), frames) == Consume(old(Abs()), data)
    {
      frames := [];
      for i := 0 to |data|
        invariant Valid() && body == old(body)
        invariant (Abs(), frames) == Consume(old(Abs()), data[..i])
      {
        var more := FeedByte(data[i]);
        frames := frames + more;
        assert data[..i + 1][..i] == data[..i];
      }
      assert data[..|data|] == data;
    }
  }
}
