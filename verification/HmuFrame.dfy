/** HMUARTLGW frames and the encoder: magic byte, then length, destination, counter,
    payload and CRC with the two reserved byte values escaped. */
module HmuFrame {
  import opened Bytes
  import opened Crc16

  const MAGIC: byte := 0xfd
  const ESCAPE: byte := 0xfc
  const ESCAPE_MASK: byte := 0x80
  const MAX_PAYLOAD: nat := 512
  const MAX_FRAME_ESC: nat := 1 + 2 * (2 + 2 + MAX_PAYLOAD + 2)

  datatype Frame = Frame(dst: byte, cnt: byte, payload: seq<byte>)

  predicate Encodable(f: Frame) {
    |f.payload| <= MAX_PAYLOAD
  }

  function Masked(b: byte): byte {
    XorByteBound(b, ESCAPE_MASK);
    Xor(b, ESCAPE_MASK)
  }

  predicate Reserved(b: byte) {
    b == MAGIC || b == ESCAPE
  }

  function Escaped(b: byte): seq<byte> {
    if Reserved(b) then [ESCAPE, Masked(b)] else [b]
  }

  function EscapeAll(m: seq<byte>): seq<byte> {
    if m == [] then [] else EscapeAll(m[..|m| - 1]) + Escaped(m[|m| - 1])
  }

  // Length, destination, counter and payload before escaping.
  function Content(f: Frame): seq<byte>
    requires Encodable(f)
  {
    BigEndian(2 + |f.payload|) + [f.dst, f.cnt] + f.payload
  }

  // The CRC covers the magic byte too.
  function ContentCrc(content: seq<byte>): word {
    Crc([MAGIC] + content)
  }

  function Checked(content: seq<byte>): seq<byte> {
    content + BigEndian(ContentCrc(content))
  }

  function Encode(f: Frame): seq<byte>
    requires Encodable(f)
  {
    [MAGIC] + EscapeAll(Checked(Content(f)))
  }

  // ----- The encoder

  method EmitEscaped(out: array<byte>, pos: nat, b: byte) returns (n: nat)
    requires pos + 2 <= out.Length
    modifies out
    ensures pos + n <= out.Length && out[..pos + n] == old(out[..pos]) + Escaped(b)
    ensures out[pos + n..] == old(out[pos + n..])
  {
    if b == MAGIC || b == ESCAPE {
      out[pos] := ESCAPE;
      out[pos + 1] := Masked(b);
      return 2;
    }
    out[pos] := b;
    return 1;
  }

  lemma {:induction false} EscapeAllLength(m: seq<byte>)
    ensures |m| <= |EscapeAll(m)| <= 2 * |m|
  {
    if m == [] {
    } else {
      EscapeAllLength(m[..|m| - 1]);
    }
  }

  method EmitAll(out: array<byte>, start: nat, m: seq<byte>) returns (pos: nat)
    requires start + 2 * |m| <= out.Length
    modifies out
    ensures start <= pos <= out.Length && out[..pos] == old(out[..start]) + EscapeAll(m)
    ensures out[pos..] == old(out[pos..])
  {
    hide EscapeAll, Escaped;
    pos := start;
    EscapeNone();
    assert m[..0] == [] && old(out[..start]) + [] == old(out[..start]);
    for i := 0 to |m|
      invariant start <= pos <= start + 2 * i
      invariant out[..pos] == old(out[..start]) + EscapeAll(m[..i])
      invariant out[pos..] == old(out[pos..])
    {
      label before:
      var n := EmitEscaped(out, pos, m[i]);
      EscapeOneMore(m, i);
      TailOfTail(old(out[..]), old@before(out[..]), pos, n);
      pos := pos + n;
    }
    assert m[..|m|] == m;
  }

  lemma EscapeNone()
    ensures EscapeAll([]) == []
  {
  }

  lemma EscapeOneMore(m: seq<byte>, i: nat)
    requires i < |m|
    ensures EscapeAll(m[..i + 1]) == EscapeAll(m[..i]) + Escaped(m[i])
    ensures |Escaped(m[i])| <= 2
  {
    assert m[..i + 1][..i] == m[..i];
  }

  lemma TailOfTail(a: seq<byte>, b: seq<byte>, i: nat, n: nat)
    requires |a| == |b| && i + n <= |a| && a[i..] == b[i..]
    ensures a[i + n..] == b[i + n..]
  {
    assert a[i + n..] == a[i..][n..] && b[i + n..] == b[i..][n..];
  }

  // Returns the encoded length, or -1 and leaves the buffer alone.
  method FrameEncode(dst: byte, cnt: byte, payload: seq<byte>, out: array<byte>) returns (r: int)
    modifies out
    ensures r >= 0 <==> |payload| <= 512 && out.Length >= 1 + 2 * (2 + (2 + |payload|) + 2)
    ensures r < 0 ==> r == -1 && out[..] == old(out[..])
    ensures r >= 0 ==> r <= out.Length && out[..r] == Encode(Frame(dst, cnt, payload))
    ensures r >= 0 ==> out[r..] == old(out[r..])
  {
    if |payload| > MAX_PAYLOAD {
      return -1;
    }
    var length := 2 + |payload|;
    var raw: seq<byte> := [MAGIC, length / 0x100, length % 0x100, dst, cnt] + payload;
    var crc := HmuCrc16(raw);
    if out.Length < 1 + 2 * (2 + length + 2) {
      return -1;
    }
    ghost var f := Frame(dst, cnt, payload);
    assert raw == [MAGIC] + Content(f);
    out[0] := MAGIC;
    var pos := EmitAll(out, 1, raw[1..] + [Hi(crc), Lo(crc)]);
    assert raw[1..] + [Hi(crc), Lo(crc)] == Checked(Content(f));
    return pos;
  }

  // ----- Escaping hides the reserved values and can be undone

  lemma MaskedReserved(b: byte)
    requires Reserved(b)
    ensures !Reserved(Masked(b)) && Masked(b) == b - 0x80
  {
    XorTopByte(b - 0x80);
  }

  lemma MaskedTwice(b: byte)
    ensures Masked(Masked(b)) == b
  {
    XorCancel(b, ESCAPE_MASK);
  }

  predicate MagicFree(m: seq<byte>) {
    MAGIC !in m
  }

  lemma {:induction false} EscapeAllMagicFree(m: seq<byte>)
    ensures MagicFree(EscapeAll(m))
  {
    if m == [] {
    } else {
      EscapeAllMagicFree(m[..|m| - 1]);
      if Reserved(m[|m| - 1]) {
        MaskedReserved(m[|m| - 1]);
      }
    }
  }

  // The bytes a receiver reads from an escaped stretch: a byte after 0xfc is unmasked,
  // an 0xfc at the very end stays pending.
  function Unescape(p: seq<byte>): seq<byte> {
    if p == [] then []
    else if p[0] != ESCAPE then [p[0]] + Unescape(p[1..])
    else if |p| == 1 then []
    else [Masked(p[1])] + Unescape(p[2..])
  }

  predicate Dangling(p: seq<byte>) {
    if p == [] then false
    else if p[0] != ESCAPE then Dangling(p[1..])
    else |p| == 1 || Dangling(p[2..])
  }

  lemma {:induction false} UnescapeAppend(p: seq<byte>, q: seq<byte>)
    requires !Dangling(p)
    ensures Unescape(p + q) == Unescape(p) + Unescape(q)
    ensures Dangling(p + q) == Dangling(q)
  {
    if p == [] {
      assert p + q == q;
    } else if p[0] != ESCAPE {
      assert (p + q)[1..] == p[1..] + q;
      UnescapeAppend(p[1..], q);
    } else {
      assert (p + q)[2..] == p[2..] + q;
      UnescapeAppend(p[2..], q);
    }
  }

  // Reading one byte more.
  lemma {:induction false} UnescapeSnoc(p: seq<byte>, b: byte)
    ensures Unescape(p + [b]) ==
      if Dangling(p) then Unescape(p) + [Masked(b)]
      else if b == ESCAPE then Unescape(p)
      else Unescape(p) + [b]
    ensures Dangling(p + [b]) == (!Dangling(p) && b == ESCAPE)
  {
    if !Dangling(p) {
      UnescapeAppend(p, [b]);
      assert [b][1..] == [];
    } else if |p| == 1 {
      assert p + [b] == [p[0], b];
      assert [p[0], b][2..] == [];
      assert p[1..] == [];
    } else if p[0] != ESCAPE {
      assert (p + [b])[1..] == p[1..] + [b];
      UnescapeSnoc(p[1..], b);
    } else {
      assert (p + [b])[2..] == p[2..] + [b];
      UnescapeSnoc(p[2..], b);
    }
  }

  lemma {:induction false} UnescapeEscapeAll(m: seq<byte>)
    ensures Unescape(EscapeAll(m)) == m && !Dangling(EscapeAll(m))
  {
    if m == [] {
    } else {
      var n, b := |m| - 1, m[|m| - 1];
      UnescapeEscapeAll(m[..n]);
      UnescapeAppend(EscapeAll(m[..n]), Escaped(b));
      MaskedTwice(b);
      assert Escaped(b)[1..] == if Reserved(b) then [Masked(b)] else [];
      assert Unescape(Escaped(b)) == [b] && !Dangling(Escaped(b));
      assert m == m[..n] + [b];
    }
  }

  // ----- Shape of an encoding

  function ReservedCount(m: seq<byte>): nat {
    if m == [] then 0 else ReservedCount(m[..|m| - 1]) + if Reserved(m[|m| - 1]) then 1 else 0
  }

  lemma {:induction false} EscapeAllShape(m: seq<byte>)
    ensures |EscapeAll(m)| == |m| + ReservedCount(m)
  {
    if m == [] {
    } else {
      EscapeAllShape(m[..|m| - 1]);
    }
  }

  // One escape byte per reserved value, the magic byte only in front, and never longer
  // than the capacity the encoder asks for.
  lemma EncodeShape(f: Frame)
    requires Encodable(f)
    ensures |Encode(f)| == 5 + (2 + |f.payload|) + ReservedCount(Checked(Content(f)))
    ensures Encode(f)[0] == MAGIC && MagicFree(Encode(f)[1..])
    ensures |Encode(f)| <= 1 + 2 * (2 + (2 + |f.payload|) + 2) <= MAX_FRAME_ESC
  {
    var m := Checked(Content(f));
    EscapeAllShape(m);
    EscapeAllLength(m);
    EscapeAllMagicFree(m);
    assert Encode(f)[1..] == EscapeAll(m);
  }
}
