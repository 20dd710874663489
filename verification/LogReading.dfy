/** What a reader of the log gets: the lines that were recorded, in order, and text from which
    they can be read back. */
module LogReading {
  import opened Bytes
  import opened LogRing

  // ----- Which line a sequence number names

  lemma Wrapped(n: nat, h: nat, s: nat)
    requires h == n % TWO32 && s < h
    ensures n - h + s >= 0 && (n - h + s) % MAX_LINES == s % MAX_LINES
  {
  }

  // For every number a reader is offered, before and after the 32-bit counter wraps, the slot holds
  // the entry that many places before the newest.
  lemma SlotHoldsLine(lines: seq<Line>, all: seq<Entry>, s: nat)
    requires |lines| == MAX_LINES && HoldsRecent(lines, all)
    requires s < |all| % TWO32 && |all| % TWO32 - MAX_LINES <= s
    ensures 0 <= |all| - |all| % TWO32 + s < |all|
    ensures lines[s % MAX_LINES] == Stored(all[|all| - |all| % TWO32 + s])
  {
    Wrapped(|all|, |all| % TWO32, s);
    var k := |all| - |all| % TWO32 + s;
    assert lines[k % MAX_LINES] == Stored(all[k]);
  }

  // ----- Whole entries

  function EntryText(line: Line, s: nat, first: bool): string {
    Header(s, line.ts, first) + EscapeAll(line.msg) + "\"}"
  }

  function LastEscape(msg: string): nat {
    if msg == "" then 0 else |Escape(msg[|msg| - 1])|
  }

  // The escaped message is written whole exactly if its last character starts early enough.
  lemma {:induction false} FitIsAll(msg: string, pos: nat, cap: nat)
    ensures |EscapeFit(msg, pos, cap)| <= |EscapeAll(msg)|
    ensures LastEscape(msg) <= |EscapeAll(msg)|
    ensures EscapeFit(msg, pos, cap) == EscapeAll(msg)
      <==> msg == "" || pos + |EscapeAll(msg)| - LastEscape(msg) + 7 < cap
  {
    hide Escape;
    if msg == "" {
    } else {
      var e, rest := Escape(msg[0]), msg[1..];
      FitIsAll(rest, pos + |e|, cap);
      if pos + 7 < cap {
        var f, g := EscapeFit(rest, pos + |e|, cap), EscapeAll(rest);
        assert (e + f)[|e|..] == f && (e + g)[|e|..] == g;
      }
    }
  }

  // The entry, escapes included, and the eight places the code keeps free before each character fit
  // behind pos.
  predicate Fits(line: Line, s: nat, first: bool, pos: nat, cap: nat) {
    var used := |Header(s, line.ts, first)| + |EscapeAll(line.msg)|;
    && pos + used + 2 < cap
    && (line.msg == "" || pos + used - LastEscape(line.msg) + 7 < cap)
  }

  // An entry that passed the size check is written whole exactly if it fits.
  lemma WholeIffFits(line: Line, s: nat, first: bool, text: string, cap: nat)
    requires |text| + Need(line.msg) < cap
    ensures WriteEntry(line, s, text, first, cap) == Counted(text + EntryText(line, s, first))
      <==> Fits(line, s, first, |text|, cap)
  {
    hide Header, EscapeFit, EscapeAll, LastEscape;
    var head := Header(s, line.ts, first);
    var t1 := text + head;
    FitIsAll(line.msg, |t1|, cap);
    if |t1| < cap {
      FitBounds(line.msg, |t1|, cap);
      SameMiddle(t1, EscapeFit(line.msg, |t1|, cap), EscapeAll(line.msg), "\"}");
      assert t1 + EscapeAll(line.msg) + "\"}" == text + EntryText(line, s, first);
    }
  }

  lemma SameMiddle(a: string, b: string, c: string, d: string)
    ensures a + b + d == a + c + d <==> b == c
  {
    if a + b + d == a + c + d {
      assert |b| == |c|;
      assert b == (a + b + d)[|a|..|a| + |b|] && c == (a + c + d)[|a|..|a| + |b|];
    }
  }

  // Header and escapes stay within the estimate the code makes.
  predicate Roomy(line: Line, s: nat, first: bool) {
    var used := |Header(s, line.ts, first)| + |EscapeAll(line.msg)|;
    && used + 2 <= Need(line.msg)
    && (line.msg == "" || used - LastEscape(line.msg) + 7 <= Need(line.msg))
  }

  ghost predicate AlwaysWhole(line: Line, s: nat, first: bool, text: string) {
    forall cap: nat {:trigger WriteEntry(line, s, text, first, cap)} ::
      |text| + Need(line.msg) < cap
      ==> WriteEntry(line, s, text, first, cap) == Counted(text + EntryText(line, s, first))
  }

  // Behind any text, the code's size check keeps an entry whole in every buffer exactly if the
  // estimate holds; otherwise the smallest buffer that passes the check leaves it cut or unclosed.
  lemma WholeIffRoomy(line: Line, s: nat, first: bool, text: string)
    ensures AlwaysWhole(line, s, first, text) <==> Roomy(line, s, first)
  {
    hide Header, EscapeAll, LastEscape, WriteEntry, EntryText;
    if Roomy(line, s, first) {
      forall cap: nat | |text| + Need(line.msg) < cap
        ensures WriteEntry(line, s, text, first, cap) == Counted(text + EntryText(line, s, first))
      {
        WholeIffFits(line, s, first, text, cap);
      }
    }
    if AlwaysWhole(line, s, first, text) {
      WholeIffFits(line, s, first, text, |text| + Need(line.msg) + 1);
    }
  }

  // ----- Lines that are safe

  function Ten(k: nat): (r: nat)
    ensures r >= 1
  {
    if k == 0 then 1 else 10 * Ten(k - 1)
  }

  lemma {:induction false} DecimalLength(n: nat, k: nat)
    requires 1 <= k && n < Ten(k)
    ensures 1 <= |Decimal(n)| <= k
    ensures Ten(k - 1) <= n ==> |Decimal(n)| == k
    decreases k
  {
    if n < 10 {
    } else {
      DecimalLength(n / 10, k - 1);
    }
  }

  predicate Plain(msg: string) {
    forall i :: 0 <= i < |msg| ==> msg[i] != '"' && msg[i] != '\\' && msg[i] >= ' '
  }

  lemma {:induction false} PlainEscapes(msg: string)
    requires Plain(msg)
    ensures EscapeAll(msg) == msg
  {
    if msg == "" {
    } else {
      PlainEscapes(msg[1..]);
    }
  }

  // Lines of twelve or more characters that need no escapes are never cut.
  lemma PlainLinesRoomy(line: Line, s: u32, first: bool)
    requires Plain(line.msg) && |line.msg| >= 12
    ensures Roomy(line, s, first)
  {
    assert Ten(5) == 100_000;
    assert Ten(10) == 10_000_000_000;
    DecimalLength(s, 10);
    DecimalLength(line.ts, 10);
    PlainEscapes(line.msg);
  }
}
