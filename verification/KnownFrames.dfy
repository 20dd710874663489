/** Whole messages of both protocols in literal bytes: the register step in plain arithmetic, and with it
    the CRC, the order of the bytes and the escapes of messages that can be compared with a recording. */
module KnownFrames {
  import opened Bytes
  import opened Crc16
  import opened HmuFrame
  import CrcDistance
  import HbSessions

  // One step without exclusive or: double, and when a bit falls out, flip bits 15, 2 and 0.
  function Next(c: word): word {
    if c < 0x8000 then 2 * c
    else
      var d := 2 * c - 0x1_0000;
      (if d < 0x8000 then d + 0x8000 else d - 0x8000) + (if d % 8 < 4 then 5 else -3)
  }

  lemma SmallXor(s: nat)
    requires s == 0 || s == 2 || s == 4 || s == 6
    ensures Xor(s, 5) == if s < 4 then s + 5 else s - 3
  {
    XorZero(5);
    XorZero(1);
    XorZero(2);
    assert Xor(2, 5) == 2 * Xor(1, 2) + 1;
    assert Xor(1, 2) == 2 * Xor(0, 1) + 1;
    assert Xor(4, 5) == 2 * Xor(2, 2) + 1;
    assert Xor(6, 5) == 2 * Xor(3, 2) + 1;
    assert Xor(3, 2) == 2 * Xor(1, 1) + 1;
    XorSelf(2);
    XorSelf(1);
  }

  // An even number against 5: only its last three bits change.
  lemma EvenXor(q: nat, s: nat)
    requires s == 0 || s == 2 || s == 4 || s == 6
    ensures Xor(8 * q + s, 5) == 8 * q + if s < 4 then s + 5 else s - 3
  {
    hide Xor, ShiftLeft, Pow2;
    Eightfold(q);
    SmallXor(s);
    XorLow(q, s, 3);
    XorLow(q, Xor(s, 5), 3);
    XorAssoc(8 * q, s, 5);
  }

  lemma Eightfold(q: nat)
    ensures ShiftLeft(q, 3) == 8 * q && Pow2(3) == 8
  {
    assert ShiftLeft(q, 1) == 2 * ShiftLeft(q, 0) && ShiftLeft(q, 2) == 2 * ShiftLeft(q, 1);
    assert ShiftLeft(q, 3) == 2 * ShiftLeft(q, 2);
  }

  // An even word against the polynomial.
  lemma EvenPoly(top: bool, q: nat, s: nat)
    requires s == 0 || s == 2 || s == 4 || s == 6
    requires 8 * q + s < 0x8000
    ensures Xor((if top then 0x8000 else 0) + 8 * q + s, 0x8005)
         == (if top then 0 else 0x8000) + 8 * q + s + if s < 4 then 5 else -3
  {
    hide Xor;
    EvenXor(q, s);
    CrcDistance.XorPoly(top, 8 * q + s, Xor(8 * q + s, 5));
  }

  lemma LastThree(h: nat) returns (q: nat, t: nat)
    ensures h == 4 * q + t && t < 4 && (2 * h) % 8 == 2 * t
  {
    q, t := h / 4, h % 4;
    assert 2 * h == 8 * q + 2 * t;
  }

  lemma ShiftIsNext(c: word)
    ensures Shift(c) == Next(c)
  {
    hide Xor;
    if c >= 0x8000 {
      Reduction(c);
      var q, t := LastThree(c - 0x8000);
      if c < 0xc000 {
        EvenPoly(false, q, 2 * t);
      } else {
        EvenPoly(true, q - 0x1000, 2 * t);
      }
    }
  }

  lemma Reduction(c: word)
    requires c >= 0x8000
    ensures Shift(c) == Xor(2 * c - 0x1_0000, 0x8005)
  {
    hide Xor;
    assert 2 * c % 0x1_0000 == 2 * c - 0x1_0000;
  }

  lemma {:induction false} ShiftLeftXor(a: nat, b: nat, n: nat)
    ensures Xor(ShiftLeft(a, n), ShiftLeft(b, n)) == ShiftLeft(Xor(a, b), n)
  {
    hide Xor;
    if n > 0 {
      ShiftLeftXor(a, b, n - 1);
      Double(ShiftLeft(a, n - 1), ShiftLeft(b, n - 1));
    }
  }

  // A byte is mixed into the high byte of the register.
  lemma MixIs(h: byte, l: byte, b: byte, m: byte)
    requires Xor(h, b) == m
    ensures XorWord(h * 0x100 + l, b * 0x100) == m * 0x100 + l
  {
    hide Xor, ShiftLeft;
    XorHigh(h, l);
    XorHigh(m, l);
    ByteShift(h);
    ByteShift(b);
    ByteShift(m);
    ShiftLeftXor(h, b, 8);
    XorAssoc(h * 0x100, l, b * 0x100);
    XorComm(l, b * 0x100);
    XorAssoc(h * 0x100, b * 0x100, l);
  }

  function Next4(c: word): word {
    Next(Next(Next(Next(c))))
  }

  lemma FourShifts(c: word, n: nat)
    ensures ShiftN(c, n + 4) == Next4(ShiftN(c, n))
  {
    hide Shift, Next;
    assert ShiftN(c, n + 1) == Shift(ShiftN(c, n)) && ShiftN(c, n + 2) == Shift(ShiftN(c, n + 1));
    assert ShiftN(c, n + 3) == Shift(ShiftN(c, n + 2)) && ShiftN(c, n + 4) == Shift(ShiftN(c, n + 3));
    ShiftIsNext(ShiftN(c, n));
    ShiftIsNext(ShiftN(c, n + 1));
    ShiftIsNext(ShiftN(c, n + 2));
    ShiftIsNext(ShiftN(c, n + 3));
  }

  lemma AbsorbIs(h: byte, l: byte, b: byte, m: byte)
    requires Xor(h, b) == m
    ensures Absorb(h * 0x100 + l, b) == Next4(Next4(m * 0x100 + l))
  {
    MixIs(h, l, b, m);
    var c := m * 0x100 + l;
    hide Xor, XorWord, Next4;
    FourShifts(c, 0);
    FourShifts(c, 4);
  }

  // One binary digit more at the end.
  lemma XorDigit(a: nat, b: nat, v: nat)
    requires Xor(a / 2, b / 2) == v / 2 && v % 2 == if a % 2 == b % 2 then 0 else 1
    ensures Xor(a, b) == v
  {
    XorStep(a, b);
    SameHalves(Xor(a, b), v);
  }

  lemma Mixtures()
    ensures Xor(0xd7, 0xfd) == 0x2a && Xor(0xfd, 0x03) == 0xfe && Xor(0x84, 0x01) == 0x85
    ensures Xor(0x80, 0x02) == 0x82 && Xor(0xd7, 0x02) == 0xd5
  {
    hide Xor;
    XorZero(0);
    XorDigit(0x01, 0x01, 0x00);
    XorDigit(0x03, 0x03, 0x00);
    XorDigit(0x06, 0x07, 0x01);
    XorDigit(0x0d, 0x0f, 0x02);
    XorDigit(0x1a, 0x1f, 0x05);
    XorDigit(0x35, 0x3f, 0x0a);
    XorDigit(0x6b, 0x7e, 0x15);
    XorDigit(0xd7, 0xfd, 0x2a);
    XorZero(63);
    XorDigit(0x7e, 0x01, 0x7f);
    XorDigit(0xfd, 0x03, 0xfe);
    XorZero(66);
    XorDigit(0x84, 0x01, 0x85);
    XorZero(32);
    XorDigit(0x40, 0x01, 0x41);
    XorDigit(0x80, 0x02, 0x82);
    XorZero(53);
    XorDigit(0x6b, 0x01, 0x6a);
    XorDigit(0xd7, 0x02, 0xd5);
  }

  lemma CrcStep(m: seq<byte>, h: byte, l: byte, b: byte, x: byte, c: word)
    requires Crc(m) == h * 0x100 + l && Xor(h, b) == x && Next4(Next4(x * 0x100 + l)) == c
    ensures Crc(m + [b]) == c
  {
    hide Xor, Next4, Absorb;
    AbsorbIs(h, l, b, x);
    assert (m + [b])[..|m|] == m;
  }

  lemma EmptyCrc()
    ensures Crc([]) == 0xd77f
  {
  }

  lemma FrameCrcSteps()
    ensures Next4(Next4(0x2a7f)) == 0xffff
    ensures Next4(Next4(0xffff)) == 0xfd02
    ensures Next4(Next4(0xfe02)) == 0x8007
  {
    assert Next4(0x2a7f) == 0x27ff;
    assert Next4(0xffff) == 0xffd2;
    assert Next4(0xfe02) == 0xe002;
  }

  lemma MoreFrameCrcSteps()
    ensures Next4(Next4(0x8007)) == 0x8403
    ensures Next4(Next4(0x8503)) == 0x801d
    ensures Next4(Next4(0x821d)) == 0x1e0c
  {
    assert Next4(0x8007) == 0x8043;
    assert Next4(0x8503) == 0xd003;
    assert Next4(0x821d) == 0xa1e3;
  }

  // The magic byte, length 3, layer 0, counter 1, command 2.
  lemma FrameCrc()
    ensures Crc([0xfd, 0x00, 0x03, 0x00, 0x01, 0x02]) == 0x1e0c
  {
    hide Xor, Crc, Next4;
    Mixtures();
    FrameCrcSteps();
    MoreFrameCrcSteps();
    EmptyCrc();
    CrcStep([], 0xd7, 0x7f, 0xfd, 0x2a, 0xffff);
    assert [] + [0xfd] == [0xfd];
    XorZero(0xff);
    CrcStep([0xfd], 0xff, 0xff, 0x00, 0xff, 0xfd02);
    assert [0xfd] + [0x00] == [0xfd, 0x00];
    CrcStep([0xfd, 0x00], 0xfd, 0x02, 0x03, 0xfe, 0x8007);
    assert [0xfd, 0x00] + [0x03] == [0xfd, 0x00, 0x03];
    XorZero(0x80);
    CrcStep([0xfd, 0x00, 0x03], 0x80, 0x07, 0x00, 0x80, 0x8403);
    assert [0xfd, 0x00, 0x03] + [0x00] == [0xfd, 0x00, 0x03, 0x00];
    CrcStep([0xfd, 0x00, 0x03, 0x00], 0x84, 0x03, 0x01, 0x85, 0x801d);
    assert [0xfd, 0x00, 0x03, 0x00] + [0x01] == [0xfd, 0x00, 0x03, 0x00, 0x01];
    CrcStep([0xfd, 0x00, 0x03, 0x00, 0x01], 0x80, 0x1d, 0x02, 0x82, 0x1e0c);
    assert [0xfd, 0x00, 0x03, 0x00, 0x01] + [0x02] == [0xfd, 0x00, 0x03, 0x00, 0x01, 0x02];
  }

  lemma PacketCrcSteps()
    ensures Next4(Next4(0xd57f)) == 0xfdfd
    ensures Next4(Next4(0xfdfd)) == 0x7f0d
  {
    assert Next4(0xd57f) == 0xd7dd;
    assert Next4(0xfdfd) == 0xdff2;
  }

  // Type 2, counter 0.
  lemma PacketCrc()
    ensures Crc([0x02, 0x00]) == 0x7f0d
  {
    hide Xor, Crc, Next4;
    Mixtures();
    PacketCrcSteps();
    EmptyCrc();
    CrcStep([], 0xd7, 0x7f, 0x02, 0xd5, 0xfdfd);
    assert [] + [0x02] == [0x02];
    XorZero(0xfd);
    CrcStep([0x02], 0xfd, 0xfd, 0x00, 0xfd, 0x7f0d);
    assert [0x02] + [0x00] == [0x02, 0x00];
  }

  // ----- On the wire

  // The two reserved values travel as two bytes, every other as itself.
  lemma KnownEscapes(b: byte)
    ensures Escaped(b) == if b == 0xfd then [0xfc, 0x7d] else if b == 0xfc then [0xfc, 0x7c] else [b]
  {
    if b >= 0xfc {
      if Reserved(b) {
        MaskedReserved(b);
      }
    }
  }

  lemma {:induction false} Unreserved(m: seq<byte>)
    requires forall i :: 0 <= i < |m| ==> m[i] < 0xfc
    ensures EscapeAll(m) == m
  {
    if m != [] {
      Unreserved(m[..|m| - 1]);
    }
  }

  // The request for the firmware version, under counter 1: magic byte, length 3 high byte first,
  // layer, counter, command, and the CRC high byte first.
  lemma KnownFrame()
    ensures Encode(Frame(0x00, 0x01, [0x02])) == [0xfd, 0x00, 0x03, 0x00, 0x01, 0x02, 0x1e, 0x0c]
  {
    var content: seq<byte> := [0x00, 0x03, 0x00, 0x01, 0x02];
    FrameCrc();
    hide Crc, EscapeAll;
    assert Content(Frame(0x00, 0x01, [0x02])) == content;
    assert [0xfd] + content == [0xfd, 0x00, 0x03, 0x00, 0x01, 0x02];
    assert Checked(content) == [0x00, 0x03, 0x00, 0x01, 0x02, 0x1e, 0x0c];
    Unreserved(Checked(content));
  }

  // The first keepalive of a session.
  lemma KnownPacket()
    ensures HbSessions.Packet(2, 0, []) == [0x02, 0x00, 0x7f, 0x0d]
  {
    PacketCrc();
    hide Crc;
    assert [2, 0] + [] == [0x02, 0x00];
  }
}
