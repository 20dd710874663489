/** How far apart accepted messages are. Two flipped bits go unnoticed exactly at distances that
    are multiples of 32767; hence accepted messages of up to 4095 bytes, and all frames, differ in
    at least four bits.

    The polynomial is (x + 1)(x^15 + x + 1). The low bit of the register, started where the first
    factor has cancelled out, follows the recurrence of the second; squaring that recurrence again
    and again gives its period. */
module CrcDistance {
  import opened Bytes
  import opened Crc16
  import opened HmuFrame
  import opened HmuDecoder
  import opened HmuStream

  const ORDER: nat := 32767

  lemma {:induction false} ShiftNAdd(c: word, a: nat, b: nat)
    ensures ShiftN(c, a + b) == ShiftN(ShiftN(c, a), b)
  {
    if b == 0 {
    } else {
      ShiftNAdd(c, a, b - 1);
    }
  }

  // ----- The low bit of the register started at 5 = x^17 + x^16 mod the polynomial

  function Tap(n: nat): bool {
    ShiftN(5, n) % 2 == 1
  }

  // A word xor the polynomial: its low fifteen bits against 5, its top bit flipped.
  lemma XorPoly(t: bool, r: nat, m: nat)
    requires r < 0x8000 && m < 0x8000 && Xor(r, 5) == m
    ensures Xor(if t then 0x8000 + r else r, 0x8005) == if t then m else 0x8000 + m
  {
    hide Xor;
    XorTop(r);
    XorTop(m);
    XorTop(5);
    if t {
      XorSwap(0x8000, r, 0x8000, 5);
      XorSelf(0x8000);
      XorZero(m);
    } else {
      XorComm(r, 0x8005);
      XorAssoc(0x8000, 5, r);
      XorComm(5, r);
    }
  }

  lemma Reduced()
    ensures Xor(0x4000, 0x8005) == 0xC005 && Xor(0x800A, 0x8005) == 0xF
    ensures Xor(10, 5) == 15 && Xor(0x8000, 0x8005) == 5 && Xor(6, 0x8005) == 0x8003
  {
    XorZero(5);
    assert Xor(10, 5) == 15;
    assert Xor(6, 5) == 3;
    BitFourteen();
    hide Xor;
    XorPoly(false, 0x4000, 0x4005);
    XorPoly(true, 0xA, 0xF);
    XorPoly(true, 0, 5);
    XorPoly(false, 6, 3);
  }

  lemma BitFourteen()
    ensures Xor(0x4000, 5) == 0x4005
  {
    hide Xor;
    assert Pow2(8) == 0x100;
    assert Pow2(14) == 0x4000;
    assert ShiftLeft(1, 8) == 0x100;
    assert ShiftLeft(1, 14) == 0x4000;
    XorLow(1, 5, 14);
  }

  lemma {:induction false} Pow2Grows(a: nat, b: nat)
    requires a <= b
    ensures Pow2(a) <= Pow2(b)
  {
    if a < b {
      Pow2Grows(a, b - 1);
    }
  }

  // Nothing is reduced during the first thirteen steps.
  lemma {:induction false} Unreduced(n: nat)
    requires n <= 13
    ensures ShiftN(5, n) == 5 * Pow2(n)
  {
    if n == 0 {
    } else {
      Unreduced(n - 1);
      Pow2Grows(n - 1, 12);
      assert Pow2(12) == 4096;
    }
  }

  lemma ReducedStep(c: word, n: nat, v: word, low: word)
    requires ShiftN(c, n) == v && v == 0x8000 + low / 2 && low % 2 == 0
    ensures ShiftN(c, n + 1) == Xor(low, POLY)
  {
    hide Xor;
    assert 2 * v % 0x1_0000 == low;
  }

  lemma FirstSteps()
    ensures ShiftN(5, 1) == 10 && ShiftN(5, 14) == 0xC005 && ShiftN(5, 15) == 15
  {
    Reduced();
    Unreduced(1);
    Unreduced(13);
    assert Pow2(12) == 4096;
    hide ShiftN, Shift, Xor;
    ReducedStep(5, 13, 0xA000, 0x4000);
    ReducedStep(5, 14, 0xC005, 0x800A);
  }

  lemma FirstTaps()
    ensures Tap(0) && Tap(14) && forall n :: 1 <= n <= 13 ==> !Tap(n)
  {
    FirstSteps();
    Unreduced(0);
    hide ShiftN, Shift, Xor;
    forall n | 1 <= n <= 13 ensures !Tap(n) {
      Unreduced(n);
      assert 5 * Pow2(n) == 2 * (5 * Pow2(n - 1));
    }
  }

  lemma Recurrence(n: nat)
    ensures Tap(n + 15) == (Tap(n + 1) != Tap(n))
  {
    FirstSteps();
    Reduced();
    ShiftNAdd(5, 15, n);
    ShiftNAdd(5, 1, n);
    ShiftNLinear(10, 5, n);
    XorStep(ShiftN(10, n), ShiftN(5, n));
  }

  // Squaring the recurrence j times.
  lemma {:induction false} Squared(j: nat, n: nat)
    ensures Tap(n + 15 * Pow2(j)) == (Tap(n + Pow2(j)) != Tap(n))
    decreases j
  {
    hide Tap;
    if j == 0 {
      Recurrence(n);
    } else {
      var m := Pow2(j - 1);
      Squared(j - 1, n);
      Squared(j - 1, n + 15 * m);
      Squared(j - 1, n + m);
      assert n + 15 * m + 15 * m == n + 15 * Pow2(j);
      assert n + m + 15 * m == n + 15 * m + m;
    }
  }

  lemma Sixteen(m: nat, j: nat, n: nat)
    requires m == Pow2(j)
    ensures Tap(n + 16 * m) == (Tap(n + 2 * m) != Tap(n + m))
  {
    Squared(j, n + m);
    assert n + m + 15 * m == n + 16 * m;
  }

  // Every power of two ahead is a combination of 1, 2, 4 and 8 ahead.
  lemma Jumps(n: nat)
    ensures Tap(n + 64) == (Tap(n + 8) != Tap(n + 4))
    ensures Tap(n + 128) == (Tap(n + 8) != (Tap(n + 2) != Tap(n + 1)))
    ensures Tap(n + 512) == (Tap(n + 8) != Tap(n + 2))
    ensures Tap(n + 1024) == (Tap(n + 4) != (Tap(n + 2) != Tap(n + 1)))
    ensures Tap(n + 4096) == ((Tap(n + 8) != Tap(n + 4)) != (Tap(n + 2) != Tap(n + 1)))
    ensures Tap(n + 32768) == Tap(n + 1)
  {
    assert Pow2(1) == 2 && Pow2(2) == 4 && Pow2(3) == 8 && Pow2(4) == 16 && Pow2(5) == 32;
    assert Pow2(6) == 64 && Pow2(7) == 128 && Pow2(8) == 256 && Pow2(9) == 512;
    assert Pow2(10) == 1024 && Pow2(11) == 2048;
    Sixteen(1, 0, n);
    Sixteen(2, 1, n);
    Sixteen(4, 2, n);
    Sixteen(8, 3, n);
    Sixteen(16, 4, n);
    Sixteen(32, 5, n);
    Sixteen(64, 6, n);
    Sixteen(128, 7, n);
    Sixteen(256, 8, n);
    Sixteen(512, 9, n);
    Sixteen(1024, 10, n);
    Sixteen(2048, 11, n);
  }

  // ----- Periods

  predicate Same(n: nat, p: nat) {
    Tap(n + p) == Tap(n)
  }

  ghost predicate Period(p: nat) {
    forall n: nat :: Same(n, p)
  }

  lemma PeriodDiff(a: nat, b: nat)
    requires Period(a) && Period(b) && b <= a
    ensures Period(a - b)
  {
    var d := a - b;
    forall n: nat ensures Same(n, d) {
      assert Same(n, a) && Same(n + d, b);
    }
  }

  lemma {:induction false} PeriodTimes(p: nat, m: nat)
    requires Period(p)
    ensures Period(m * p)
  {
    hide Tap;
    if m == 0 {
      var z := m * p;
      assert z == 0;
      forall n: nat ensures Same(n, z) {
      }
    } else {
      PeriodTimes(p, m - 1);
      var q, r := (m - 1) * p, m * p;
      assert r == q + p;
      forall n: nat ensures Same(n, r) {
        assert Same(n, q) && Same(n + q, p);
        assert n + q + p == n + r;
      }
    }
  }

  lemma OrderIsPeriod()
    ensures Period(ORDER)
  {
    hide Tap;
    forall n: nat ensures Same(n, ORDER) {
      if n > 0 {
        Jumps(n - 1);
      } else {
        Jumps(0);
        Jumps(14);
        Recurrence(0);
        Recurrence(ORDER);
      }
    }
  }

  // The periods the three largest proper divisors of 32767 would give are refuted by one tap each.
  lemma NotShorter()
    ensures !Period(217) && !Period(1057) && !Period(4681)
  {
    hide Tap;
    FirstTaps();
    TapsOf217();
    TapsOf1057();
    TapsOf4681();
    assert !Same(1, 217) && !Same(0, 1057) && !Same(0, 4681);
  }

  lemma MiddleTaps()
    ensures forall n :: 16 <= n <= 27 ==> !Tap(n)
    ensures !Tap(29) && !Tap(31) && !Tap(32) && !Tap(33) && !Tap(34) && !Tap(35) && !Tap(36) && !Tap(37) && !Tap(38)
  {
    hide Tap;
    FirstTaps();
    forall n | 16 <= n <= 27 ensures !Tap(n) {
      Recurrence(n - 15);
    }
    Recurrence(0);
    Recurrence(14);
    Recurrence(16);
    Sixteen(2, 1, 0);
    Sixteen(2, 1, 1);
    Sixteen(2, 1, 2);
    Sixteen(2, 1, 3);
    Sixteen(2, 1, 4);
    Sixteen(2, 1, 5);
    Sixteen(2, 1, 6);
  }

  lemma TapsOf217()
    ensures Tap(218)
  {
    hide Tap;
    FirstTaps();
    MiddleTaps();
    Sixteen(2, 1, 10);
    Jumps(34);
    Jumps(28);
    Jumps(27);
    Jumps(90);
  }

  lemma TapsOf1057()
    ensures !Tap(1057)
  {
    hide Tap;
    MiddleTaps();
    Jumps(33);
  }

  lemma TapsOf4681()
    ensures !Tap(4681)
  {
    hide Tap;
    MiddleTaps();
    Jumps(12);
    Jumps(13);
    Jumps(15);
    Jumps(18);
    Jumps(19);
    Jumps(21);
    Jumps(25);
    Jumps(74);
    Jumps(75);
    Jumps(77);
    Jumps(81);
    Jumps(585);
  }

  // A period that is not a multiple of 32767 would lead, by the remainder algorithm, to one of
  // these three.

  predicate Indivisible(p: nat) {
    p > 1 && forall r :: 1 < r < p ==> p % r != 0
  }

  lemma {:induction false} Descent(a: nat, r: nat, p: nat)
    requires Indivisible(p) && 0 < r < p && Period(r * a) && Period(p * a)
    ensures Period(a)
    decreases r
  {
    if r == 1 {
    } else {
      var q := p / r;
      PeriodTimes(r * a, q);
      Remainder(a, r, p);
      PeriodDiff(p * a, q * (r * a));
      Descent(a, p % r, p);
    }
  }

  lemma Remainder(a: nat, r: nat, p: nat)
    requires 0 < r
    ensures p / r * (r * a) <= p * a && p * a - p / r * (r * a) == p % r * a
  {
    var q := p / r;
    assert p == q * r + p % r;
    assert p * a == q * r * a + p % r * a;
    assert q * (r * a) == q * r * a;
  }

  lemma SmallPrimes()
    ensures Indivisible(7) && Indivisible(31) && Indivisible(151)
  {
    forall r | 1 < r < 31 ensures 31 % r != 0 {
      NoDivisor(31, r);
    }
    forall r | 1 < r < 151 ensures 151 % r != 0 {
      NoDivisor(151, r);
    }
  }

  lemma NoDivisor(p: nat, r: nat)
    requires (p == 151 || p == 31) && 1 < r < p
    ensures p % r != 0
  {
    var q := p / r;
    BigProduct(q, r);
    assert p == q * r + p % r;
    if 1 < q <= 12 {
      NoFactor(p, q, r);
    } else if r <= 12 {
      NoFactor(p, r, q);
    }
  }

  lemma BigProduct(q: nat, r: nat)
    ensures q > 12 && r > 12 ==> q * r >= 169
  {
    if q > 12 && r > 12 {
      assert q * r >= 13 * r;
    }
  }

  lemma NoFactor(p: nat, c: nat, x: nat)
    requires (p == 151 || p == 31) && 1 < c <= 12
    ensures c * x != p
  {
    if c == 2 { assert 2 * x != p; }
    else if c == 3 { assert 3 * x != p; }
    else if c == 4 { assert 4 * x != p; }
    else if c == 5 { assert 5 * x != p; }
    else if c == 6 { assert 6 * x != p; }
    else if c == 7 { assert 7 * x != p; }
    else if c == 8 { assert 8 * x != p; }
    else if c == 9 { assert 9 * x != p; }
    else if c == 10 { assert 10 * x != p; }
    else if c == 11 { assert 11 * x != p; }
    else { assert 12 * x != p; }
  }

  // If p does not divide k, the period k and the order have p * cofactor's share in common.
  lemma Share(k: nat, p: nat, cofactor: nat)
    requires Indivisible(p) && p * cofactor == ORDER && Period(k) && k % p != 0
    ensures Period(cofactor)
  {
    var q, r := k / p, k % p;
    OrderIsPeriod();
    PeriodTimes(k, cofactor);
    PeriodTimes(ORDER, q);
    assert k == q * p + r;
    assert cofactor * k == q * (p * cofactor) + r * cofactor;
    PeriodDiff(cofactor * k, q * ORDER);
    Descent(cofactor, r, p);
  }

  lemma CommonMultiple(k: nat, a: int, b: int, c: int)
    requires k == 7 * a && k == 31 * b && k == 151 * c
    ensures k % 32767 == 0
  {
    var d := 9 * b - 2 * a;
    assert k == 217 * d;
    var e := 23 * d - 16 * c;
    assert k == 32767 * e;
  }

  lemma AllThree(k: nat)
    requires k % 7 == 0 && k % 31 == 0 && k % 151 == 0
    ensures k % ORDER == 0
  {
    CommonMultiple(k, k / 7, k / 31, k / 151);
  }

  lemma PeriodIff(k: nat)
    ensures Period(k) <==> k % ORDER == 0
  {
    hide Tap, Same, Indivisible;
    if k % ORDER == 0 {
      OrderIsPeriod();
      PeriodTimes(ORDER, k / ORDER);
      assert k / ORDER * ORDER == k;
    } else if Period(k) {
      NotShorter();
      SmallPrimes();
      if k % 7 != 0 {
        Share(k, 7, 4681);
      } else if k % 31 != 0 {
        Share(k, 31, 1057);
      } else if k % 151 != 0 {
        Share(k, 151, 217);
      } else {
        AllThree(k);
      }
    }
  }

  // ----- From the low bit back to the register

  lemma LowBit(v: word)
    ensures Shift(v) % 2 == 1 <==> v >= 0x8000
  {
    XorStep(2 * v % 0x1_0000, POLY);
  }

  // A register whose low bit stays clear for sixteen steps is clear.
  lemma {:induction false} OnlyDoubles(c: word, n: nat)
    requires forall i :: 1 <= i <= n ==> ShiftN(c, i) % 2 == 0
    ensures ShiftN(c, n) == ShiftLeft(c, n)
  {
    if n == 0 {
    } else {
      OnlyDoubles(c, n - 1);
      LowBit(ShiftN(c, n - 1));
    }
  }

  lemma ShiftLeft16(c: nat)
    requires ShiftLeft(c, 16) < 0x1_0000
    ensures c == 0
  {
    if c > 0 {
      Powers();
      ShiftLeftAdd(1, c - 1, 16);
      ShiftLeftPow2(0, 16);
    }
  }

  lemma Observable(c: word)
    requires forall i :: 1 <= i <= 16 ==> ShiftN(c, i) % 2 == 0
    ensures c == 0
  {
    OnlyDoubles(c, 16);
    ShiftLeft16(c);
  }

  // The only registers a step leaves alone are 0 and 0x8003, the second factor.
  lemma FixedPoints(f: word)
    requires Shift(f) == f
    ensures f == 0 || f == 0x8003
  {
    if f >= 0x8000 {
      Reduced();
      assert 2 * 0x8003 % 0x1_0000 == 6;
      hide Xor;
      var e := XorWord(f, 0x8003);
      ShiftLinear(f, 0x8003);
      XorTop(f - 0x8000);
      XorTop(3);
      XorSwap(0x8000, f - 0x8000, 0x8000, 3);
      XorSelf(0x8000);
      Powers();
      XorBound(f - 0x8000, 3, 15);
      XorZero(Xor(f - 0x8000, 3));
      XorIsZero(f, 0x8003);
    }
  }

  lemma FiveIsDifference(k: nat)
    ensures ShiftN(5, k) == Xor(ShiftN(0x8000, k + 1), ShiftN(0x8000, k))
  {
    Reduced();
    hide Xor;
    XorComm(0x8005, 0x8000);
    XorTop(5);
    XorCancel(5, 0x8000);
    ShiftNLinear(0x8005, 0x8000, k);
    ShiftNFront(0x8000, k);
    XorZero(0x8005);
    XorComm(0, 0x8005);
    ShiftTop();
  }

  lemma ShiftTop()
    ensures Shift(0x8000) == 0x8005
  {
    hide Xor;
    assert 2 * 0x8000 % 0x1_0000 == 0;
    XorZero(POLY);
  }

  lemma {:induction false} OddShiftN(c: word, n: nat)
    ensures Odd(ShiftN(c, n)) == Odd(c)
  {
    if n == 0 {
    } else {
      OddShiftN(c, n - 1);
      ShiftKeepsParity(ShiftN(c, n - 1));
    }
  }

  lemma PeriodReturnsFive(k: nat)
    requires Period(k)
    ensures ShiftN(5, k) == 5
  {
    var e := XorWord(ShiftN(5, k), 5);
    forall i | 1 <= i <= 16 ensures ShiftN(e, i) % 2 == 0 {
      ShiftNLinear(ShiftN(5, k), 5, i);
      ShiftNAdd(5, k, i);
      XorStep(ShiftN(5, k + i), ShiftN(5, i));
      assert Same(i, k);
      assert i + k == k + i;
    }
    Observable(e);
    XorIsZero(ShiftN(5, k), 5);
  }

  lemma FiveReturnsTop(k: nat)
    requires ShiftN(5, k) == 5
    ensures ShiftN(0x8000, k) == 0x8000
  {
    hide Xor;
    var s, f := ShiftN(0x8000, k), XorWord(ShiftN(0x8000, k), 0x8000);
    FiveIsDifference(k);
    FiveIsDifference(0);
    ShiftLinear(s, 0x8000);
    var s1 := ShiftN(0x8000, k + 1);
    assert s1 == Shift(s);
    XorSwap(s1, Shift(0x8000), s, 0x8000);
    assert ShiftN(0x8000, 1) == Shift(ShiftN(0x8000, 0));
    XorSelf(5);
    XorIsZero(Shift(f), f);
    FixedPoints(f);
    OddShiftN(0x8000, k);
    OddXor(s, 0x8000);
    Odd8003();
    XorIsZero(s, 0x8000);
  }

  lemma Odd8003()
    ensures Odd(0x8003)
  {
    OddConstants();
    XorTop(3);
    OddXor(0x8000, 3);
    assert !Odd(3);
  }

  // The register started with its top bit alone returns there exactly after multiples of 32767.
  lemma ReturnsIff(k: nat)
    ensures ShiftN(0x8000, k) == 0x8000 <==> k % ORDER == 0
  {
    hide Xor, Shift;
    PeriodIff(k);
    if Period(k) {
      PeriodReturnsFive(k);
      FiveReturnsTop(k);
    }
    if ShiftN(0x8000, k) == 0x8000 {
      FiveIsDifference(k);
      FiveIsDifference(0);
      assert ShiftN(0x8000, k + 1) == Shift(0x8000) == ShiftN(0x8000, 1);
      forall n: nat ensures Same(n, k) {
        ShiftNAdd(5, k, n);
        assert k + n == n + k;
      }
    }
  }

  // ----- Two flipped bits

  ghost predicate TwoFlips(d: seq<bool>, i: nat, j: nat) {
    i < j < |d| && forall k :: 0 <= k < |d| ==> d[k] == (k == i || k == j)
  }

  lemma TwoFlipsSeen(d: seq<bool>, i: nat, j: nat)
    requires TwoFlips(d, i, j)
    ensures RunBits(0, d) == 0 <==> (j - i) % ORDER == 0
  {
    assert i < j < |d|;
    hide Xor, Shift, TwoFlips;
    var before, between, after := d[..i], d[i + 1..j], d[j + 1..];
    AroundFlips(d, i, j);
    hide AllClear;
    RunBitsAppend(0, before, [true] + (between + ([true] + after)));
    RunClear(0, before);
    ShiftNZero(0, i);
    OneFlip(0, between + ([true] + after));
    XorZero(0x8000);
    var c := Shift(0x8000);
    RunBitsAppend(c, between, [true] + after);
    RunClear(c, between);
    ShiftNFront(0x8000, j - i - 1);
    var e := ShiftN(0x8000, j - i);
    OneFlip(e, after);
    RunClear(BitStep(e, true), after);
    ShiftNZero(BitStep(e, true), |after|);
    ShiftNZero(XorWord(e, 0x8000), 1);
    XorIsZero(e, 0x8000);
    ReturnsIff(j - i);
  }

  lemma AroundFlips(d: seq<bool>, i: nat, j: nat)
    requires TwoFlips(d, i, j)
    ensures d == d[..i] + ([true] + (d[i + 1..j] + ([true] + d[j + 1..])))
    ensures AllClear(d[..i]) && AllClear(d[i + 1..j]) && AllClear(d[j + 1..])
  {
  }

  lemma OneFlip(c: word, rest: seq<bool>)
    ensures RunBits(c, [true] + rest) == RunBits(BitStep(c, true), rest)
  {
    assert ([true] + rest)[1..] == rest;
  }

  // ----- The distance between accepted messages

  function Distance(a: seq<byte>, b: seq<byte>): nat
    requires |a| == |b|
  {
    Ones(XorBits(Bits(a), Bits(b)))
  }

  // One of two messages that differ in two bits is accepted with the other exactly if the two
  // bits lie a multiple of 32767 apart.
  lemma TwoBitErrorMissedIff(a: seq<byte>, b: seq<byte>, i: nat, j: nat)
    requires |a| == |b| && Accepted(a) && TwoFlips(XorBits(Bits(a), Bits(b)), i, j)
    ensures |b| >= 2 && (Accepted(b) <==> (j - i) % ORDER == 0)
  {
    TwoFlipsSeen(XorBits(Bits(a), Bits(b)), i, j);
    AcceptedIsResidue(a);
    AcceptedIsResidue(b);
    RunIsRunBits(INIT, a);
    RunIsRunBits(INIT, b);
    XorSelf(INIT);
    RunBitsLinear(INIT, INIT, Bits(a), Bits(b));
    XorIsZero(Crc(a), Crc(b));
  }

  lemma {:induction false} NoOnes(d: seq<bool>)
    requires Ones(d) == 0
    ensures AllClear(d)
  {
    if d == [] {
    } else {
      NoOnes(d[1..]);
    }
  }

  lemma {:induction false} OneOne(d: seq<bool>) returns (j: nat)
    requires Ones(d) == 1
    ensures j < |d| && forall k :: 0 <= k < |d| ==> d[k] == (k == j)
  {
    if d[0] {
      NoOnes(d[1..]);
      j := 0;
    } else {
      j := OneOne(d[1..]);
      j := j + 1;
    }
  }

  lemma {:induction false} TwoOnes(d: seq<bool>) returns (i: nat, j: nat)
    requires Ones(d) == 2
    ensures TwoFlips(d, i, j)
  {
    if d[0] {
      j := OneOne(d[1..]);
      i, j := 0, j + 1;
    } else {
      i, j := TwoOnes(d[1..]);
      i, j := i + 1, j + 1;
    }
  }

  lemma NoDifference(a: seq<byte>, b: seq<byte>)
    requires |a| == |b| && Distance(a, b) == 0
    ensures a == b
  {
    hide Bits;
    NoOnes(XorBits(Bits(a), Bits(b)));
    assert Bits(a) == Bits(b);
    BitsInjective(a, b);
  }

  // Accepted messages of one length of at most 4095 bytes are equal or differ in four bits or more.
  lemma AcceptedFarApart(a: seq<byte>, b: seq<byte>)
    requires |a| == |b| <= 4095 && a != b && Accepted(a) && Accepted(b)
    ensures Distance(a, b) >= 4
  {
    hide Accepted, Bits, XorBits, Ones;
    var d := XorBits(Bits(a), Bits(b));
    if Ones(d) % 2 == 1 {
      OddErrorDetected(a, b);
    } else if Ones(d) == 0 {
      NoDifference(a, b);
    } else if Ones(d) == 2 {
      var i, j := TwoOnes(d);
      TwoBitErrorMissedIff(a, b, i, j);
    }
  }

  // A segment that differs from an encoded frame in one, two or three bits behind the length
  // field is not delivered.
  lemma FewBitErrorsNotDelivered(f: Frame, segment: seq<byte>)
    requires Encodable(f)
    requires var u, v := Checked(Content(f)), Unescape(segment);
      |u| == |v| && u[..2] == v[..2] && 1 <= Distance([MAGIC] + u, [MAGIC] + v) <= 3
    ensures SegmentFrames(segment) == []
  {
    var u, v := Checked(Content(f)), Unescape(segment);
    ContentReadsBack(f);
    assert u[0] == u[..2][0] == v[0] && u[1] == u[..2][1] == v[1];
    assert u[..LengthOf(u) + 4] == u && v[..LengthOf(v) + 4] == v;
    if Accepted([MAGIC] + v) {
      if u == v {
        NotApart([MAGIC] + u);
      } else {
        assert ([MAGIC] + u)[1..] == u && ([MAGIC] + v)[1..] == v;
        AcceptedFarApart([MAGIC] + u, [MAGIC] + v);
      }
    }
  }

  lemma NotApart(a: seq<byte>)
    ensures Distance(a, a) == 0
  {
    ClearOnes(XorBits(Bits(a), Bits(a)));
  }

  lemma {:induction false} ClearOnes(d: seq<bool>)
    requires AllClear(d)
    ensures Ones(d) == 0
  {
    if d == [] {
    } else {
      ClearOnes(d[1..]);
    }
  }
}
