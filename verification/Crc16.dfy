/** The CRC-16 shared by the HMUARTLGW frames and the HB-RF-ETH packets
    (polynomial 0x8005, initial value 0xd77f, most significant bit first). */
module Crc16 {
  import opened Bytes

  const POLY: word := 0x8005
  const INIT: word := 0xd77f

  // One step of the register: shift left, reduce when a bit falls out.
  function Shift(c: word): word {
    if c >= 0x8000 then XorWord(2 * c % 0x1_0000, POLY) else 2 * c
  }

  function ShiftN(c: word, n: nat): word {
    if n == 0 then c else Shift(ShiftN(c, n - 1))
  }

  function XorWord(a: word, b: word): word {
    XorWordBound(a, b);
    Xor(a, b)
  }

  function Absorb(c: word, b: byte): word {
    ShiftN(XorWord(c, b * 0x100), 8)
  }

  function Run(c: word, m: seq<byte>): word {
    if m == [] then c else Absorb(Run(c, m[..|m| - 1]), m[|m| - 1])
  }

  function Crc(m: seq<byte>): word {
    Run(INIT, m)
  }

  function Hi(c: word): byte { c / 0x100 }
  function Lo(c: word): byte { c % 0x100 }
  function BigEndian(c: word): seq<byte> { [Hi(c), Lo(c)] }
  function Join(hi: byte, lo: byte): word { hi * 0x100 + lo }

  method HmuCrc16(data: seq<byte>) returns (crc: word)
    ensures crc == Crc(data)
  {
    crc := INIT;
    for i := 0 to |data|
      invariant crc == Run(INIT, data[..i])
    {
      var value: int := data[i];
      crc := XorWord(crc, value * 0x100);
      ghost var mixed := crc;
      for b: int := 0 to 8
        invariant crc == ShiftN(mixed, b)
      {
        if crc >= 0x8000 {
          crc := XorWord(2 * crc % 0x1_0000, POLY);
        } else {
          crc := 2 * crc;
        }
      }
      assert data[..i + 1][..i] == data[..i];
    }
    assert data[..|data|] == data;
  }

  // ----- The register is linear over exclusive or

  lemma Double(a: nat, b: nat)
    ensures Xor(2 * a, 2 * b) == 2 * Xor(a, b)
  {
    XorStep(2 * a, 2 * b);
    SameHalves(Xor(2 * a, 2 * b), 2 * Xor(a, b));
  }

  lemma LowLinear(a: word, b: word)
    requires a < 0x8000 && b < 0x8000
    ensures Xor(a, b) < 0x8000 && Shift(Xor(a, b)) == Xor(Shift(a), Shift(b))
  {
    Powers();
    XorBound(a, b, 15);
    Double(a, b);
  }

  predicate Top(c: word) { c >= 0x8000 }
  function Rest(c: word): word { if Top(c) then c - 0x8000 else c }

  // A set top bit is a flipped bit, and leaves the shift as a flipped polynomial.
  lemma ShiftFlip(t: bool, r: word)
    requires r < 0x8000
    ensures Flip(0x8000, t, r) == if t then 0x8000 + r else r
    ensures Shift(Flip(0x8000, t, r)) == Flip(POLY, t, Shift(r))
  {
    XorTop(r);
    assert 2 * (0x8000 + r) % 0x1_0000 == 2 * r;
    XorComm(POLY, 2 * r);
  }

  lemma ShiftLinear(a: word, b: word)
    ensures Shift(XorWord(a, b)) == Xor(Shift(a), Shift(b))
  {
    var ra, rb := Rest(a), Rest(b);
    LowLinear(ra, rb);
    ShiftFlip(Top(a), ra);
    ShiftFlip(Top(b), rb);
    ShiftFlip(Top(a) != Top(b), Xor(ra, rb));
    FlipLinear(0x8000, Top(a), Top(b), ra, rb);
    FlipLinear(POLY, Top(a), Top(b), Shift(ra), Shift(rb));
  }

  lemma ShiftZero(c: word)
    requires Shift(c) == 0
    ensures c == 0
  {
    if c >= 0x8000 {
      var d := 2 * c % 0x1_0000;
      XorStep(d, POLY);
    }
  }

  lemma {:induction false} ShiftNZero(c: word, n: nat)
    ensures ShiftN(c, n) == 0 <==> c == 0
  {
    if n == 0 {
    } else {
      ShiftNZero(c, n - 1);
      if ShiftN(c, n) == 0 {
        ShiftZero(ShiftN(c, n - 1));
      }
    }
  }

  lemma {:induction false} ShiftNLinear(a: word, b: word, n: nat)
    ensures ShiftN(XorWord(a, b), n) == Xor(ShiftN(a, n), ShiftN(b, n))
  {
    if n == 0 {
    } else {
      ShiftNLinear(a, b, n - 1);
      ShiftLinear(ShiftN(a, n - 1), ShiftN(b, n - 1));
    }
  }

  lemma XorIsZero(a: nat, b: nat)
    ensures Xor(a, b) == 0 <==> a == b
  {
    XorSelf(a);
    XorCancel(a, b);
    XorZero(b);
  }

  // Two registers that agree after the same byte agreed before it.
  lemma AbsorbInjective(c: word, d: word, b: byte)
    requires Absorb(c, b) == Absorb(d, b)
    ensures c == d
  {
    var v := b * 0x100;
    XorIsZero(Absorb(c, b), Absorb(d, b));
    ShiftNLinear(XorWord(c, v), XorWord(d, v), 8);
    ShiftNZero(XorWord(XorWord(c, v), XorWord(d, v)), 8);
    XorIsZero(XorWord(c, v), XorWord(d, v));
    XorCancel(c, v);
    XorCancel(d, v);
  }

  // A byte below the register's top byte reaches it unreduced.
  lemma ShiftLow(l: byte)
    ensures ShiftN(l, 8) == l * 0x100
  {
    assert ShiftN(l, 2) == 2 * ShiftN(l, 1) == 4 * l;
    assert ShiftN(l, 4) == 2 * ShiftN(l, 3) == 4 * ShiftN(l, 2);
    assert ShiftN(l, 6) == 2 * ShiftN(l, 5) == 4 * ShiftN(l, 4);
    assert ShiftN(l, 8) == 2 * ShiftN(l, 7) == 4 * ShiftN(l, 6);
  }

  lemma AbsorbOwnBytes(c: word)
    ensures Absorb(Absorb(c, Hi(c)), Lo(c)) == 0
  {
    var h: int, l: int := Hi(c), Lo(c);
    assert Absorb(c, h) == l * 0x100 by {
      XorHigh(h, l);
      XorCancel(l, h * 0x100);
      ShiftLow(l);
    }
    XorSelf(l * 0x100);
    ShiftNZero(0, 8);
  }

  lemma TwoMore(m: seq<byte>, hi: byte, lo: byte)
    ensures Crc(m + [hi, lo]) == Absorb(Absorb(Crc(m), hi), lo)
  {
    hide Absorb;
    var n, k := m + [hi, lo], m + [hi];
    assert n[..|n| - 1] == k && k[..|k| - 1] == m;
    assert Crc(n) == Absorb(Crc(k), lo) && Crc(k) == Absorb(Crc(m), hi);
  }

  // The two trailing bytes clear the register exactly if they are its content.
  lemma Residue(m: seq<byte>, hi: byte, lo: byte)
    ensures Crc(m + [hi, lo]) == 0 <==> Join(hi, lo) == Crc(m)
  {
    hide Absorb, Crc;
    var c, d := Crc(m), Join(hi, lo);
    TwoMore(m, hi, lo);
    assert Hi(d) == hi && Lo(d) == lo;
    AbsorbOwnBytes(d);
    if Crc(m + [hi, lo]) == 0 {
      AbsorbInjective(Absorb(c, hi), Absorb(d, hi), lo);
      AbsorbInjective(c, d, hi);
    }
  }

  // Appending the big-endian CRC leaves no residue.
  lemma ResidueOfChecked(m: seq<byte>)
    ensures Crc(m + BigEndian(Crc(m))) == 0
  {
    Residue(m, Hi(Crc(m)), Lo(Crc(m)));
  }

  // ----- The same register fed one bit at a time

  function TopIf(bit: bool): word { if bit then 0x8000 else 0 }

  function BitStep(c: word, bit: bool): word {
    Shift(XorWord(c, TopIf(bit)))
  }

  function RunBits(c: word, bits: seq<bool>): word
    decreases bits
  {
    if bits == [] then c else RunBits(BitStep(c, bits[0]), bits[1..])
  }

  // The n bits of v, most significant first.
  function BitsOf(v: nat, n: nat): (bits: seq<bool>)
    requires v < Pow2(n)
    ensures |bits| == n
  {
    if n == 0 then []
    else
      var p := Pow2(n - 1);
      [v >= p] + BitsOf(if v >= p then v - p else v, n - 1)
  }

  function ValueOf(bits: seq<bool>): (v: nat)
    ensures v < Pow2(|bits|)
  {
    if bits == [] then 0
    else (if bits[0] then Pow2(|bits| - 1) else 0) + ValueOf(bits[1..])
  }

  lemma {:induction false} BitsOfValueOf(bits: seq<bool>)
    ensures BitsOf(ValueOf(bits), |bits|) == bits
  {
    if bits == [] {
    } else {
      BitsOfValueOf(bits[1..]);
      assert bits == [bits[0]] + bits[1..];
    }
  }

  function ByteBits(b: byte): (bits: seq<bool>)
    ensures |bits| == 8
  {
    Powers();
    BitsOf(b, 8)
  }

  function Bits(m: seq<byte>): (bits: seq<bool>)
    ensures |bits| == 8 * |m|
  {
    if m == [] then [] else Bits(m[..|m| - 1]) + ByteBits(m[|m| - 1])
  }

  lemma {:induction false} RunBitsAppend(c: word, x: seq<bool>, y: seq<bool>)
    ensures RunBits(c, x + y) == RunBits(RunBits(c, x), y)
    decreases x
  {
    if x == [] {
      assert x + y == y;
    } else {
      assert (x + y)[1..] == x[1..] + y;
      RunBitsAppend(BitStep(c, x[0]), x[1..], y);
    }
  }

  lemma {:induction false} ShiftNFront(c: word, n: nat)
    ensures ShiftN(c, n + 1) == ShiftN(Shift(c), n)
  {
    if n == 0 {
    } else {
      ShiftNFront(c, n - 1);
    }
  }

  // v's top bit is shifted out first, the rest of v follows one place higher.
  lemma PeelTopBit(c: word, v: nat, n: nat) returns (t: bool, r: nat, s: word)
    requires 1 <= n <= 16 && v < Pow2(n)
    ensures t == (v >= Pow2(n - 1)) && r == (if t then v - Pow2(n - 1) else v)
    ensures s == ShiftLeft(v, 16 - n)
    ensures ShiftLeft(r, 17 - n) < 0x1_0000
    ensures Shift(XorWord(c, s)) == Xor(BitStep(c, t), ShiftLeft(r, 17 - n))
  {
    t := v >= Pow2(n - 1);
    r := if t then v - Pow2(n - 1) else v;
    Powers();
    ShiftLeftBound(v, n, 16 - n);
    ShiftLeftBound(r, n - 1, 16 - n);
    s := ShiftLeft(v, 16 - n);
    var low := ShiftLeft(r, 16 - n);
    if t {
      ShiftLeftAdd(Pow2(n - 1), r, 16 - n);
      ShiftLeftPow2(n - 1, 16 - n);
      XorTop(low);
      assert s == Xor(0x8000, low) by {
        assert v == Pow2(n - 1) + r;
      }
    } else {
      XorZero(low);
      assert s == Xor(0, low);
    }
    assert s == Xor(TopIf(t), low);
    XorAssoc(c, TopIf(t), low);
    ShiftLinear(XorWord(c, TopIf(t)), low);
  }

  // Up to sixteen bits fed one by one act like one word mixed in before shifting.
  lemma {:induction false} Serial(c: word, v: nat, n: nat)
    requires n <= 16 && v < Pow2(n)
    ensures ShiftLeft(v, 16 - n) < 0x1_0000
    ensures ShiftN(XorWord(c, ShiftLeft(v, 16 - n)), n) == RunBits(c, BitsOf(v, n))
    decreases n
  {
    if n == 0 {
      ShiftLeftZero(16);
      XorZero(c);
    } else {
      var t, r, s := PeelTopBit(c, v, n);
      ShiftNFront(XorWord(c, s), n - 1);
      Serial(BitStep(c, t), r, n - 1);
      assert BitsOf(v, n)[0] == t && BitsOf(v, n)[1..] == BitsOf(r, n - 1);
    }
  }

  lemma AbsorbBits(c: word, b: byte)
    ensures Absorb(c, b) == RunBits(c, ByteBits(b))
  {
    Powers();
    Serial(c, b, 8);
    ByteShift(b);
  }

  lemma {:induction false} RunIsRunBits(c: word, m: seq<byte>)
    ensures Run(c, m) == RunBits(c, Bits(m))
    decreases m
  {
    if m == [] {
    } else {
      var init, last := m[..|m| - 1], m[|m| - 1];
      RunIsRunBits(c, init);
      RunBitsAppend(c, Bits(init), ByteBits(last));
      AbsorbBits(Run(c, init), last);
    }
  }

  function XorBits(x: seq<bool>, y: seq<bool>): (d: seq<bool>)
    requires |x| == |y|
    ensures |d| == |x| && forall i :: 0 <= i < |x| ==> d[i] == (x[i] != y[i])
  {
    seq(|x|, i requires 0 <= i < |x| => x[i] != y[i])
  }

  lemma BitStepLinear(a: word, b: word, x: bool, y: bool)
    ensures BitStep(XorWord(a, b), x != y) == Xor(BitStep(a, x), BitStep(b, y))
  {
    var s, t := TopIf(x), TopIf(y);
    XorSwap(a, s, b, t);
    XorSelf(0x8000);
    XorZero(0x8000);
    XorZero(0);
    assert Xor(s, t) == TopIf(x != y);
    XorSwap(a, b, s, t);
    ShiftLinear(XorWord(a, s), XorWord(b, t));
  }

  lemma {:induction false} RunBitsLinear(a: word, b: word, x: seq<bool>, y: seq<bool>)
    requires |x| == |y|
    ensures RunBits(XorWord(a, b), XorBits(x, y)) == Xor(RunBits(a, x), RunBits(b, y))
    decreases x
  {
    if x == [] {
    } else {
      BitStepLinear(a, b, x[0], y[0]);
      RunBitsLinear(BitStep(a, x[0]), BitStep(b, y[0]), x[1..], y[1..]);
      assert XorBits(x, y)[1..] == XorBits(x[1..], y[1..]);
    }
  }

  // ----- Error detection: m is accepted when its last two bytes are the CRC of the others

  predicate Accepted(m: seq<byte>) {
    |m| >= 2 && Join(m[|m| - 2], m[|m| - 1]) == Crc(m[..|m| - 2])
  }

  lemma AcceptedIsResidue(m: seq<byte>)
    requires |m| >= 2
    ensures Accepted(m) <==> Crc(m) == 0
  {
    var body, hi, lo := m[..|m| - 2], m[|m| - 2], m[|m| - 1];
    Residue(body, hi, lo);
    assert m == body + [hi, lo];
  }

  // Two accepted messages of one length differ by a pattern that leaves no residue from zero.
  lemma AcceptedDifference(a: seq<byte>, b: seq<byte>)
    requires Accepted(a) && Accepted(b) && |a| == |b|
    ensures RunBits(0, XorBits(Bits(a), Bits(b))) == 0
  {
    AcceptedIsResidue(a);
    AcceptedIsResidue(b);
    RunIsRunBits(INIT, a);
    RunIsRunBits(INIT, b);
    XorSelf(INIT);
    XorSelf(0);
    RunBitsLinear(INIT, INIT, Bits(a), Bits(b));
  }

  lemma {:induction false} BitsInjective(a: seq<byte>, b: seq<byte>)
    requires |a| == |b| && Bits(a) == Bits(b)
    ensures a == b
    decreases a
  {
    if a == [] {
    } else {
      var n := |a| - 1;
      assert Bits(a)[..8 * n] == Bits(a[..n]) && Bits(b)[..8 * n] == Bits(b[..n]);
      assert Bits(a)[8 * n..] == ByteBits(a[n]) && Bits(b)[8 * n..] == ByteBits(b[n]);
      BitsInjective(a[..n], b[..n]);
      ByteBitsInjective(a[n], b[n]);
      assert a == a[..n] + [a[n]] && b == b[..n] + [b[n]];
    }
  }

  lemma {:induction false} BitsOfInjective(v: nat, w: nat, n: nat)
    requires v < Pow2(n) && w < Pow2(n) && BitsOf(v, n) == BitsOf(w, n)
    ensures v == w
  {
    if n == 0 {
    } else {
      var p := Pow2(n - 1);
      assert BitsOf(v, n)[0] == BitsOf(w, n)[0];
      assert BitsOf(v, n)[1..] == BitsOf(w, n)[1..];
      BitsOfInjective(if v >= p then v - p else v, if w >= p then w - p else w, n - 1);
    }
  }

  lemma ByteBitsInjective(a: byte, b: byte)
    requires ByteBits(a) == ByteBits(b)
    ensures a == b
  {
    Powers();
    BitsOfInjective(a, b, 8);
  }

  predicate AllClear(bits: seq<bool>) {
    forall i :: 0 <= i < |bits| ==> !bits[i]
  }

  // Zero bits only shift the register.
  lemma {:induction false} RunClear(c: word, bits: seq<bool>)
    requires AllClear(bits)
    ensures RunBits(c, bits) == ShiftN(c, |bits|)
    decreases bits
  {
    if bits == [] {
    } else {
      XorZero(c);
      RunClear(Shift(c), bits[1..]);
      ShiftNFront(c, |bits| - 1);
    }
  }

  lemma {:induction false} ClearValue(n: nat)
    ensures AllClear(BitsOf(0, n))
  {
    if n == 0 {
    } else {
      ClearValue(n - 1);
    }
  }

  // No nonzero pattern of at most sixteen bits leaves a cleared register cleared.
  lemma ShortBurstSeen(bits: seq<bool>)
    requires |bits| <= 16 && RunBits(0, bits) == 0
    ensures AllClear(bits)
  {
    var v := ValueOf(bits);
    BitsOfValueOf(bits);
    Serial(0, v, |bits|);
    var s := ShiftLeft(v, 16 - |bits|);
    XorZero(s);
    ShiftNZero(s, |bits|);
    ShiftLeftBound(v, |bits|, 16 - |bits|);
    ClearValue(|bits|);
  }

  lemma BurstPatternSeen(d: seq<bool>, lo: nat)
    requires lo <= |d| && RunBits(0, d) == 0
    requires forall i :: 0 <= i < |d| && !(lo <= i < lo + 16) ==> !d[i]
    ensures AllClear(d)
  {
    var hi := if lo + 16 <= |d| then lo + 16 else |d|;
    var before, window, after := d[..lo], d[lo..hi], d[hi..];
    assert d == before + (window + after);
    RunBitsAppend(0, before, window + after);
    RunClear(0, before);
    ShiftNZero(0, lo);
    RunBitsAppend(0, window, after);
    RunClear(RunBits(0, window), after);
    ShiftNZero(RunBits(0, window), |after|);
    ShortBurstSeen(window);
    forall i | 0 <= i < |d| ensures !d[i] {
      if lo <= i < hi {
        assert d[i] == window[i - lo];
      }
    }
  }

  // Two accepted messages of one length never differ within sixteen consecutive bits only.
  lemma BurstDetected(a: seq<byte>, b: seq<byte>, lo: nat)
    requires |a| == |b| && a != b
    requires forall i :: 0 <= i < 8 * |a| && !(lo <= i < lo + 16) ==> Bits(a)[i] == Bits(b)[i]
    ensures !(Accepted(a) && Accepted(b))
  {
    if Accepted(a) && Accepted(b) {
      var d := XorBits(Bits(a), Bits(b));
      AcceptedDifference(a, b);
      if lo <= |d| {
        BurstPatternSeen(d, lo);
      }
      assert forall i :: 0 <= i < |d| ==> !d[i];
      assert Bits(a) == Bits(b);
      BitsInjective(a, b);
    }
  }

  // ----- Parity

  function Ones(bits: seq<bool>): nat {
    if bits == [] then 0 else (if bits[0] then 1 else 0) + Ones(bits[1..])
  }

  // Whether the register holds an odd number of one bits.
  predicate Odd(c: nat) {
    if c == 0 then false else Odd(c / 2) != (c % 2 == 1)
  }

  lemma {:induction false} OddXor(a: nat, b: nat)
    ensures Odd(Xor(a, b)) == (Odd(a) != Odd(b))
    decreases a + b
  {
    if a + b != 0 {
      XorStep(a, b);
      OddXor(a / 2, b / 2);
    }
  }

  lemma {:induction false} OddPow2(n: nat)
    ensures Odd(Pow2(n))
  {
    if n == 0 {
      assert !Odd(0);
    } else {
      OddPow2(n - 1);
    }
  }

  lemma OddConstants()
    ensures Odd(0x8000) && Odd(POLY) && Odd(INIT) && !Odd(0)
  {
    OddPow2(15);
    Powers();
    XorTop(5);
    OddXor(0x8000, 5);
    assert !Odd(5);
    assert POLY == Xor(0x8000, 5);
    assert !Odd(0x3);
    assert Odd(0xd);
    assert !Odd(0x35);
    assert !Odd(0xd7);
    assert Odd(0x35d);
    assert Odd(0xd77);
    assert Odd(0x35df);
    assert Odd(0xd77f);
  }

  lemma OddFlip(p: nat, on: bool, x: nat)
    requires Odd(p)
    ensures Odd(Flip(p, on, x)) == (Odd(x) != on)
  {
    if on {
      OddXor(p, x);
    }
  }

  lemma OddDouble(r: word)
    requires r < 0x8000
    ensures Odd(Shift(r)) == Odd(r)
  {
    assert 2 * r / 2 == r;
  }

  // The polynomial has an odd number of one bits, so a reduced shift keeps the parity.
  lemma ShiftKeepsParity(c: word)
    ensures Odd(Shift(c)) == Odd(c)
  {
    OddConstants();
    OddDouble(Rest(c));
    ShiftFlip(Top(c), Rest(c));
    OddFlip(POLY, Top(c), Shift(Rest(c)));
    OddFlip(0x8000, Top(c), Rest(c));
  }

  lemma BitStepParity(c: word, bit: bool)
    ensures Odd(BitStep(c, bit)) == (Odd(c) != bit)
  {
    OddConstants();
    OddXor(c, TopIf(bit));
    ShiftKeepsParity(XorWord(c, TopIf(bit)));
  }

  lemma {:induction false} RunBitsParity(c: word, bits: seq<bool>)
    ensures Odd(RunBits(c, bits)) == (Odd(c) != (Ones(bits) % 2 == 1))
    decreases bits
  {
    hide BitStep, Odd;
    if bits == [] {
    } else {
      BitStepParity(c, bits[0]);
      RunBitsParity(BitStep(c, bits[0]), bits[1..]);
    }
  }

  // Message and CRC together always hold an odd number of one bits.
  lemma ParityOfChecked(m: seq<byte>)
    ensures Ones(Bits(m + BigEndian(Crc(m)))) % 2 == 1
  {
    var n := m + BigEndian(Crc(m));
    ResidueOfChecked(m);
    RunIsRunBits(INIT, n);
    RunBitsParity(INIT, Bits(n));
    OddConstants();
  }

  lemma {:induction false} OnesXor(x: seq<bool>, y: seq<bool>)
    requires |x| == |y|
    ensures Ones(XorBits(x, y)) % 2 == (Ones(x) + Ones(y)) % 2
  {
    if x == [] {
    } else {
      OnesXor(x[1..], y[1..]);
      assert XorBits(x, y)[1..] == XorBits(x[1..], y[1..]);
    }
  }

  // An odd number of flipped bits is always rejected.
  lemma OddErrorDetected(a: seq<byte>, b: seq<byte>)
    requires |a| == |b| && Ones(XorBits(Bits(a), Bits(b))) % 2 == 1
    ensures !(Accepted(a) && Accepted(b))
  {
    if Accepted(a) && Accepted(b) {
      AcceptedDifference(a, b);
      RunBitsParity(0, XorBits(Bits(a), Bits(b)));
    }
  }
}
