/** Unsigned machine integers of the firmware, and exclusive-or on them.
    A shift left by k is written as a multiplication by 2^k, a truncation as a remainder. */
module Bytes {
  type byte = x: int | 0 <= x < 0x100
  type word = x: int | 0 <= x < 0x1_0000
  type u32 = x: int | 0 <= x < 0x1_0000_0000

  const TWO32: nat := 0x1_0000_0000

  function Wrap(x: int): u32 {
    x % TWO32
  }

  function Inc(x: u32): u32 {
    Wrap(x as int + 1)
  }

  // A counter that has wrapped counts on.
  lemma IncMod(x: nat)
    ensures Inc(x % TWO32) == (x + 1) % TWO32
  {
  }

  lemma WrapAdds(x: nat, n: nat)
    ensures Wrap(x % TWO32 + n) == (x + n) % TWO32
  {
  }

  // The bytes of consecutive pieces.
  function Flatten(pieces: seq<seq<byte>>): seq<byte> {
    if pieces == [] then [] else pieces[0] + Flatten(pieces[1..])
  }

  lemma FlattenFront(first: seq<byte>, rest: seq<seq<byte>>)
    ensures Flatten([]) == [] && Flatten([first] + rest) == first + Flatten(rest)
  {
    assert ([first] + rest)[1..] == rest;
  }

  lemma TakeAndDrop<T>(xs: seq<T>, n: nat)
    requires n <= |xs|
    ensures xs[..n] + xs[n..] == xs && xs + [] == xs
  {
  }

  function Pow2(n: nat): (p: nat)
    ensures p > 0
  {
    if n == 0 then 1 else 2 * Pow2(n - 1)
  }

  // Bitwise exclusive or.
  function Xor(a: nat, b: nat): nat {
    if a == 0 && b == 0 then 0
    else 2 * Xor(a / 2, b / 2) + (if a % 2 == b % 2 then 0 else 1)
  }

  lemma {:induction false} XorStep(a: nat, b: nat)
    ensures Xor(a, b) / 2 == Xor(a / 2, b / 2)
    ensures Xor(a, b) % 2 == if a % 2 == b % 2 then 0 else 1
  {
  }

  lemma {:induction false} XorZero(a: nat)
    ensures Xor(a, 0) == a && Xor(0, a) == a
  {
    if a != 0 {
      XorZero(a / 2);
    }
  }

  lemma {:induction false} XorComm(a: nat, b: nat)
    ensures Xor(a, b) == Xor(b, a)
  {
    if a + b != 0 {
      XorComm(a / 2, b / 2);
    }
  }

  lemma {:induction false} XorSelf(a: nat)
    ensures Xor(a, a) == 0
  {
    if a != 0 {
      XorSelf(a / 2);
    }
  }

  lemma SameHalves(u: nat, v: nat)
    requires u / 2 == v / 2 && u % 2 == v % 2
    ensures u == v
  {
  }

  // u and v are the two bracketings of a ^ b ^ c, ab and bc their inner terms.
  lemma AssocStep(a: nat, b: nat, c: nat, ab: nat, bc: nat, u: nat, v: nat)
    requires ab % 2 == if a % 2 == b % 2 then 0 else 1
    requires bc % 2 == if b % 2 == c % 2 then 0 else 1
    requires u % 2 == if ab % 2 == c % 2 then 0 else 1
    requires v % 2 == if a % 2 == bc % 2 then 0 else 1
    requires u / 2 == v / 2
    ensures u == v
  {
    SameHalves(u, v);
  }

  lemma {:induction false} XorAssoc(a: nat, b: nat, c: nat)
    ensures Xor(Xor(a, b), c) == Xor(a, Xor(b, c))
    decreases a + b + c
  {
    if a + b + c != 0 {
      var ab, bc := Xor(a, b), Xor(b, c);
      XorAssoc(a / 2, b / 2, c / 2);
      XorStep(a, b);
      XorStep(b, c);
      XorStep(ab, c);
      XorStep(a, bc);
      AssocStep(a, b, c, ab, bc, Xor(ab, c), Xor(a, bc));
    }
  }

  // x ^ y ^ y == x, in both directions.
  lemma XorCancel(x: nat, y: nat)
    ensures Xor(Xor(x, y), y) == x && Xor(y, Xor(y, x)) == x && Xor(Xor(y, x), y) == x
  {
    XorAssoc(x, y, y);
    XorAssoc(y, y, x);
    XorComm(y, x);
    XorSelf(y);
    XorZero(x);
  }

  // (a ^ b) ^ (c ^ d) == (a ^ c) ^ (b ^ d)
  lemma XorSwap(a: nat, b: nat, c: nat, d: nat)
    ensures Xor(Xor(a, b), Xor(c, d)) == Xor(Xor(a, c), Xor(b, d))
  {
    XorAssoc(Xor(a, b), c, d);
    XorAssoc(a, b, c);
    XorComm(b, c);
    XorAssoc(a, c, b);
    XorAssoc(Xor(a, c), b, d);
  }

  // Exclusive or with p, on condition.
  function Flip(p: nat, on: bool, x: nat): nat {
    if on then Xor(p, x) else x
  }

  lemma FlipLinear(p: nat, s: bool, t: bool, x: nat, y: nat)
    ensures Xor(Flip(p, s, x), Flip(p, t, y)) == Flip(p, s != t, Xor(x, y))
  {
    if s && t {
      XorSwap(p, x, p, y);
      XorSelf(p);
      XorZero(Xor(x, y));
    } else if s {
      XorAssoc(p, x, y);
    } else if t {
      XorComm(x, Xor(p, y));
      XorAssoc(p, y, x);
      XorComm(x, y);
    }
  }

  lemma {:induction false} XorBound(a: nat, b: nat, n: nat)
    requires a < Pow2(n) && b < Pow2(n)
    ensures Xor(a, b) < Pow2(n)
  {
    if a + b != 0 {
      XorBound(a / 2, b / 2, n - 1);
    }
  }

  lemma XorEven(m: nat, x: nat)
    requires Xor(m, x / 2) == m + x / 2
    ensures Xor(2 * m, x) == 2 * m + x
  {
    XorStep(2 * m, x);
    assert (2 * m) / 2 == m;
    SameHalves(Xor(2 * m, x), 2 * m + x);
  }

  // a shifted left by n places.
  function ShiftLeft(a: nat, n: nat): nat {
    if n == 0 then a else 2 * ShiftLeft(a, n - 1)
  }

  lemma {:induction false} ShiftLeftAdd(a: nat, b: nat, n: nat)
    ensures ShiftLeft(a + b, n) == ShiftLeft(a, n) + ShiftLeft(b, n)
  {
    if n == 0 {
    } else {
      ShiftLeftAdd(a, b, n - 1);
    }
  }

  lemma {:induction false} ShiftLeftZero(n: nat)
    ensures ShiftLeft(0, n) == 0
  {
    if n == 0 {
    } else {
      ShiftLeftZero(n - 1);
    }
  }

  lemma {:induction false} ShiftLeftPow2(m: nat, n: nat)
    ensures ShiftLeft(Pow2(m), n) == Pow2(m + n)
  {
    if n == 0 {
    } else {
      ShiftLeftPow2(m, n - 1);
    }
  }

  lemma {:induction false} ShiftLeftBound(a: nat, m: nat, n: nat)
    requires a < Pow2(m)
    ensures ShiftLeft(a, n) < Pow2(m + n)
    ensures a <= ShiftLeft(a, n)
  {
    if n == 0 {
    } else {
      ShiftLeftBound(a, m, n - 1);
    }
  }

  // Combining a value with n clear low bits and one below 2^n adds them.
  lemma {:induction false} XorLow(a: nat, x: nat, n: nat)
    requires x < Pow2(n)
    ensures Xor(ShiftLeft(a, n), x) == ShiftLeft(a, n) + x
  {
    if n == 0 {
      XorZero(a);
    } else {
      XorLow(a, x / 2, n - 1);
      XorEven(ShiftLeft(a, n - 1), x);
    }
  }

  lemma Powers()
    ensures Pow2(8) == 0x100 && Pow2(15) == 0x8000 && Pow2(16) == 0x1_0000
  {
    assert Pow2(8) == 0x100;
    assert Pow2(12) == 0x1000;
    assert Pow2(15) == 0x8000;
  }

  lemma XorWordBound(a: word, b: word)
    ensures Xor(a, b) < 0x1_0000
  {
    Powers();
    XorBound(a, b, 16);
  }

  // The top bit of a word sits apart from the fifteen bits below it.
  lemma XorTop(r: nat)
    requires r < 0x8000
    ensures Xor(0x8000, r) == 0x8000 + r
  {
    Powers();
    assert ShiftLeft(1, 8) == 0x100;
    assert ShiftLeft(1, 15) == 0x8000;
    XorLow(1, r, 15);
  }

  lemma XorByteBound(a: byte, b: byte)
    ensures Xor(a, b) < 0x100
  {
    Powers();
    XorBound(a, b, 8);
  }

  // Setting the top bit of a byte.
  lemma XorTopByte(r: nat)
    requires r < 0x80
    ensures Xor(0x80 + r, 0x80) == r
  {
    assert Pow2(7) == 0x80;
    assert ShiftLeft(1, 7) == 0x80;
    XorLow(1, r, 7);
    XorComm(0x80, r);
    XorCancel(r, 0x80);
  }

  lemma ByteShift(b: byte)
    ensures ShiftLeft(b, 8) == b * 0x100
  {
    assert ShiftLeft(b, 2) == 2 * ShiftLeft(b, 1) == 4 * b;
    assert ShiftLeft(b, 4) == 2 * ShiftLeft(b, 3) == 4 * ShiftLeft(b, 2);
    assert ShiftLeft(b, 6) == 2 * ShiftLeft(b, 5) == 4 * ShiftLeft(b, 4);
    assert ShiftLeft(b, 8) == 2 * ShiftLeft(b, 7) == 4 * ShiftLeft(b, 6);
  }

  // The high byte of a word sits apart from the low byte.
  lemma XorHigh(h: byte, l: byte)
    ensures Xor(h * 0x100, l) == h * 0x100 + l
  {
    Powers();
    ByteShift(h);
    XorLow(h, l, 8);
  }
}
