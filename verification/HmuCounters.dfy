/** What the decoder's four counters count, read off the batch reading of the stream. */
module HmuCounters {
  import opened Bytes
  import opened Crc16
  import opened HmuFrame
  import opened HmuDecoder
  import opened HmuStream

  datatype Tally = Tally(ok: nat, crcErr: nat, truncated: nat, skipped: nat)

  const NONE: Tally := Tally(0, 0, 0, 0)

  function Plus(a: Tally, b: Tally): Tally {
    Tally(a.ok + b.ok, a.crcErr + b.crcErr, a.truncated + b.truncated, a.skipped + b.skipped)
  }

  function Counted(t: Tally): Stats {
    Stats(t.ok % TWO32, t.crcErr % TWO32, t.truncated % TWO32, t.skipped % TWO32)
  }

  // ----- One segment

  predicate BadLength(u: seq<byte>) {
    |u| >= 2 && !(2 <= LengthOf(u) <= 514)
  }

  // All bytes of a frame are there, intact or not.
  predicate Complete(u: seq<byte>) {
    |u| >= 2 && 2 <= LengthOf(u) <= 514 && |u| >= LengthOf(u) + 4
  }

  predicate Ended(u: seq<byte>) {
    BadLength(u) || Complete(u)
  }

  // The raw bytes behind the end of the frame.
  function Behind(segment: seq<byte>): nat {
    if segment == [] then 0
    else
      var init := segment[..|segment| - 1];
      Behind(init) + if Ended(Unescape(init)) then 1 else 0
  }

  // The body bytes of a frame of which not all is there.
  function BodyRead(u: seq<byte>): nat {
    if |u| < 2 || Ended(u) then 0 else if |u| - 2 < LengthOf(u) then |u| - 2 else LengthOf(u)
  }

  // What a segment adds while no magic byte follows, and what it adds with the one that follows.
  function Read(segment: seq<byte>): Tally {
    var u := Unescape(segment);
    Tally(if CarriesFrame(u) then 1 else 0,
          if Complete(u) && !CarriesFrame(u) then 1 else 0,
          if BadLength(u) then 1 else 0,
          Behind(segment))
  }

  function Closed(segment: seq<byte>): Tally {
    var u := Unescape(segment);
    Plus(Read(segment), if Ended(u) then NONE else Tally(0, 0, 1, BodyRead(u)))
  }

  lemma TakeCounts(u: seq<byte>, stats: Stats, esc: bool, b: byte)
    requires Place(u, esc).phase != HuntMagic
    ensures CoreValid(Place(u, esc)) && !Ended(u)
    ensures var v := u + [b]; var after := Take(State(Place(u, esc), stats), b).0.stats;
      && after.framesOk == (if CarriesFrame(v) then Inc(stats.framesOk) else stats.framesOk)
      && after.crcErr == (if Complete(v) && !CarriesFrame(v) then Inc(stats.crcErr) else stats.crcErr)
      && after.truncated == (if BadLength(v) then Inc(stats.truncated) else stats.truncated)
      && after.skipped == stats.skipped
  {
    hide Wanted, Inc, Accepted;
    TakePlace(u, stats, esc, b);
    var v := u + [b];
    if |u| >= 2 {
      var length := LengthOf(u);
      assert LengthOf(v) == length;
      if |u| == length + 3 {
        assert v[..length + 4] == v && v[2..length + 2] == u[2..length + 2];
        WantedIsAccepted(v, length, u[length + 2], b);
      }
    }
  }

  lemma EndedStays(u: seq<byte>, b: byte)
    requires Ended(u)
    ensures var v := u + [b];
      && Ended(v) && CarriesFrame(v) == CarriesFrame(u) && Complete(v) == Complete(u) && BadLength(v) == BadLength(u)
  {
    var v := u + [b];
    assert LengthOf(v) == LengthOf(u);
    if Complete(u) {
      assert v[..LengthOf(u) + 4] == u[..LengthOf(u) + 4];
    }
  }

  lemma PlaceEnded(u: seq<byte>, esc: bool)
    ensures Place(u, esc).phase == HuntMagic <==> Ended(u)
    ensures !Ended(u) ==> |Place(u, esc).body| == BodyRead(u)
  {
  }

  lemma BehindSnoc(segment: seq<byte>, b: byte)
    ensures Behind(segment + [b]) == Behind(segment) + if Ended(Unescape(segment)) then 1 else 0
  {
    assert (segment + [b])[..|segment|] == segment;
  }

  // One raw byte more inside a segment.
  lemma StepRead(segment: seq<byte>, t: Tally, b: byte)
    requires b != MAGIC
    ensures CoreValid(Within(segment))
    ensures Step(State(Within(segment), Counted(Plus(t, Read(segment)))), b).0.stats
         == Counted(Plus(t, Read(segment + [b])))
  {
    WithinValid(segment);
    var u := Unescape(segment);
    var sum := Plus(t, Read(segment));
    UnescapeSnoc(segment, b);
    BehindSnoc(segment, b);
    PlaceEnded(u, Dangling(segment));
    IncMod(sum.ok);
    IncMod(sum.crcErr);
    IncMod(sum.truncated);
    IncMod(sum.skipped);
    hide Take, Place, CarriesFrame, CoreValid, BadLength, Complete, Inc, Behind, Unescape, Masked;
    if Ended(u) {
      EndedStays(u, if Dangling(segment) then Masked(b) else b);
    } else if Dangling(segment) {
      PlaceEscape(u, true);
      NothingYet(u);
      TakeCounts(u, Counted(sum), true, Masked(b));
    } else if b != ESCAPE {
      PlaceEscape(u, false);
      NothingYet(u);
      TakeCounts(u, Counted(sum), false, b);
    } else {
      PlaceEscape(u, false);
      NothingYet(u);
    }
  }

  lemma NothingYet(u: seq<byte>)
    ensures !Ended(u) ==> !CarriesFrame(u) && !Complete(u) && !BadLength(u)
  {
  }

  lemma MagicCounts(s: State)
    requires CoreValid(s.core)
    ensures Step(s, MAGIC).0.stats ==
      if s.core.phase == HuntMagic then s.stats
      else s.stats.(truncated := Inc(s.stats.truncated), skipped := Wrap(s.stats.skipped + |s.core.body|))
  {
    hide Inc, Wrap;
  }

  lemma ReadNothing(t: Tally)
    ensures Plus(t, Read([])) == t && Plus(t, NONE) == t
  {
    assert Unescape([]) == [];
  }

  lemma PlusAssoc(a: Tally, b: Tally, c: Tally)
    ensures Plus(Plus(a, b), c) == Plus(a, Plus(b, c))
  {
  }

  lemma CutCounts(a: Tally, k: nat)
    ensures Counted(Plus(a, Tally(0, 0, 1, k)))
         == Counted(a).(truncated := Inc(Counted(a).truncated), skipped := Wrap(Counted(a).skipped + k))
  {
    IncMod(a.truncated);
    WrapAdds(a.skipped, k);
    hide Inc, Wrap;
  }

  // The magic byte that follows.
  lemma StepClosed(segment: seq<byte>, t: Tally)
    ensures CoreValid(Within(segment))
    ensures Step(State(Within(segment), Counted(Plus(t, Read(segment)))), MAGIC).0.stats
         == Counted(Plus(t, Closed(segment)))
  {
    hide Read, Place, CoreValid, Ended, BodyRead, Unescape, Inc, Wrap, Step, Counted, Plus;
    WithinValid(segment);
    var u := Unescape(segment);
    var sum := Plus(t, Read(segment));
    PlaceEnded(u, Dangling(segment));
    MagicCounts(State(Within(segment), Counted(sum)));
    if Ended(u) {
      ReadNothing(Read(segment));
    } else {
      CutCounts(sum, BodyRead(u));
      PlusAssoc(t, Read(segment), Tally(0, 0, 1, BodyRead(u)));
    }
  }

  // ----- The whole stream

  // The segments behind the first magic byte: all but the last are closed.
  function AllClosed(segments: seq<seq<byte>>): Tally {
    if segments == [] then NONE
    else Plus(AllClosed(segments[..|segments| - 1]), Closed(segments[|segments| - 1]))
  }

  // The bytes in front of the first magic byte are skipped.
  function Batched(pieces: seq<seq<byte>>): Tally
    requires |pieces| > 0
  {
    var n := |pieces| - 1;
    var front := Tally(0, 0, 0, |pieces[0]|);
    if n == 0 then front else Plus(Plus(front, AllClosed(pieces[1..n])), Read(pieces[n]))
  }

  lemma StepBatched(pieces: seq<seq<byte>>, s: State, b: byte)
    requires |pieces| > 0
    requires s == State(if |pieces| == 1 then IDLE else Within(pieces[|pieces| - 1]), Counted(Batched(pieces)))
    ensures CoreValid(s.core) && Step(s, b).0.stats == Counted(Batched(Extend(pieces, b)))
  {
    hide Read, Closed, Within, AllClosed;
    var n := |pieces| - 1;
    var front := Tally(0, 0, 0, |pieces[0]|);
    var after := Extend(pieces, b);
    if n == 0 {
      IncMod(|pieces[0]|);
      NoneClosed();
      ReadNothing(front);
      if b == MAGIC {
        assert after[1..1] == [];
      }
    } else {
      WithinValid(pieces[n]);
      if b == MAGIC {
        StepClosed(pieces[n], Plus(front, AllClosed(pieces[1..n])));
        ClosedMore(pieces, n);
        assert after[1..n + 1] == pieces[1..n + 1];
        PlusAssoc(front, AllClosed(pieces[1..n]), Closed(pieces[n]));
        ReadNothing(Plus(front, AllClosed(pieces[1..n + 1])));
      } else {
        assert after[1..n] == pieces[1..n] && after[n] == pieces[n] + [b];
        StepRead(pieces[n], Plus(front, AllClosed(pieces[1..n])), b);
      }
    }
  }

  lemma NoneClosed()
    ensures AllClosed([]) == NONE
  {
  }

  lemma ClosedMore(pieces: seq<seq<byte>>, n: nat)
    requires 0 < n < |pieces|
    ensures AllClosed(pieces[1..n + 1]) == Plus(AllClosed(pieces[1..n]), Closed(pieces[n]))
  {
    hide Closed;
    assert pieces[1..n + 1][..n - 1] == pieces[1..n];
  }

  // For every stream the counters are those of the batch reading, modulo 2^32: one good frame for every
  // segment that carries one, one CRC error for every other complete one, one truncation for every
  // illegal length and every frame that a magic byte cuts short; and skipped are the bytes in front
  // of the first magic byte, those behind an end, and the body bytes of what was cut short.
  lemma {:induction false} CountersAreBatched(data: seq<byte>)
    ensures Consume(INITIAL, data).0.stats == Counted(Batched(Split(data)))
    decreases |data|
  {
    hide Step, Batched, Split;
    if data == [] {
      EmptyBatch();
      NothingBatched();
    } else {
      var init, b := data[..|data| - 1], data[|data| - 1];
      assert data == init + [b];
      CountersAreBatched(init);
      DecoderRefinesBatch(init);
      SplitSnoc(init, b);
      StepBatched(Split(init), Consume(INITIAL, init).0, b);
    }
  }

  lemma NothingBatched()
    ensures Counted(Batched([[]])) == INITIAL.stats
  {
    hide Read, AllClosed;
    assert Batched([[]]) == NONE;
  }
}
