/** The in-memory log: a ring of the last lines, fed by the log hook and read out as JSON text.
    A char stands for one byte of text. */
module LogRing {
  import opened Bytes
  import opened Wrappers
  import opened LogLine

  const MAX_LINES: nat := 128

  datatype Line = Line(ts: u32, msg: string)

  // What the hook appends: a log line, or a marker for lines it had to drop.
  datatype Entry = Text(ts: u32, msg: string) | Marker(ts: u32, dropped: u32)

  function Digit(d: nat): char
    requires d < 16
  {
    "0123456789abcdef"[d]
  }

  function Decimal(n: nat): string {
    if n < 10 then [Digit(n)] else Decimal(n / 10) + [Digit(n % 10)]
  }

  function Stored(e: Entry): Line {
    match e
    case Text(ts, msg) => Line(ts, msg)
    case Marker(ts, dropped) => Line(ts, "<" + Decimal(dropped) + " log lines dropped (mutex contention)>")
  }

  // ----- Recording

  datatype Log = Log(all: seq<Entry>, dropped: u32)

  // One log call that reaches the ring: with the mutex it appends, without it is only counted.
  datatype Call = Call(msg: string, gotMutex: bool, markerTs: u32, ts: u32)

  function Record(l: Log, c: Call): Log {
    if !c.gotMutex then l.(dropped := Inc(l.dropped))
    else
      var marker := if l.dropped != 0 then [Marker(c.markerTs, l.dropped)] else [];
      Log(l.all + marker + [Text(c.ts, c.msg)], 0)
  }

  function RecordAll(calls: seq<Call>): Log {
    if calls == [] then Log([], 0) else Record(RecordAll(calls[..|calls| - 1]), calls[|calls| - 1])
  }

  // The calls an entry stands for.
  function Weight(e: Entry): nat {
    if e.Text? then 1 else e.dropped
  }

  function TotalWeight(es: seq<Entry>): nat {
    if es == [] then 0 else TotalWeight(es[..|es| - 1]) + Weight(es[|es| - 1])
  }

  lemma TotalWeightSnoc(es: seq<Entry>, e: Entry)
    ensures TotalWeight(es + [e]) == TotalWeight(es) + Weight(e)
  {
    assert (es + [e])[..|es + [e]| - 1] == es;
  }

  lemma RecordWeight(l: Log, c: Call)
    ensures (TotalWeight(Record(l, c).all) + Record(l, c).dropped
             - TotalWeight(l.all) - l.dropped - 1) % TWO32 == 0
  {
    if c.gotMutex {
      var m, t := Marker(c.markerTs, l.dropped), Text(c.ts, c.msg);
      TotalWeightSnoc(l.all, m);
      TotalWeightSnoc(l.all + [m], t);
      TotalWeightSnoc(l.all, t);
      assert l.all + [] == l.all;
    }
  }

  lemma Accumulate(x: int, y: int)
    requires x % TWO32 == 0 && y % TWO32 == 0
    ensures (x + y) % TWO32 == 0
  {
  }

  // No call is lost: each is a stored line, part of a marker's count, or still pending (mod 2^32).
  lemma {:induction false} CallsConserved(calls: seq<Call>)
    ensures var l := RecordAll(calls); (TotalWeight(l.all) + l.dropped - |calls|) % TWO32 == 0
  {
    hide Record;
    if calls == [] {
    } else {
      var n := |calls| - 1;
      var l := RecordAll(calls[..n]);
      var m := Record(l, calls[n]);
      CallsConserved(calls[..n]);
      RecordWeight(l, calls[n]);
      Accumulate(TotalWeight(l.all) + l.dropped - n,
                 TotalWeight(m.all) + m.dropped - TotalWeight(l.all) - l.dropped - 1);
    }
  }

  lemma RecordOneMore(calls: seq<Call>, c: Call)
    ensures RecordAll(calls + [c]) == Record(RecordAll(calls), c)
  {
    hide Record;
    assert (calls + [c])[..|calls + [c]| - 1] == calls;
  }

  lemma {:induction false} OnlyCounted(calls: seq<Call>, lost: seq<Call>)
    requires forall i :: 0 <= i < |lost| ==> !lost[i].gotMutex
    ensures RecordAll(calls + lost)
         == Log(RecordAll(calls).all, (RecordAll(calls).dropped as int + |lost|) % TWO32)
    decreases |lost|
  {
    hide RecordAll, Inc;
    if lost == [] {
      assert calls + lost == calls;
    } else {
      var n: nat := |lost| - 1;
      OnlyCounted(calls, lost[..n]);
      RecordOneMore(calls + lost[..n], lost[n]);
      assert calls + lost[..n] + [lost[n]] == calls + lost;
      IncMod(RecordAll(calls).dropped + n);
    }
  }

  // Calls without the mutex leave no line. The next one with it is stored behind a line that says how
  // many there were since the last such line, if there were any.
  lemma DropsReported(calls: seq<Call>, lost: seq<Call>, c: Call)
    requires c.gotMutex && forall i :: 0 <= i < |lost| ==> !lost[i].gotMutex
    ensures var n: nat, before, after := RecordAll(calls).dropped + |lost|, RecordAll(calls).all,
                                         RecordAll(calls + lost + [c]).all;
      n < 0x1_0000_0000 ==>
        && |after| == |before| + (if n == 0 then 1 else 2) && before <= after
        && Stored(after[|after| - 1]) == Line(c.ts, c.msg)
        && (n > 0 ==> Stored(after[|before|])
                      == Line(c.markerTs, "<" + Decimal(n) + " log lines dropped (mutex contention)>"))
  {
    hide Decimal, RecordAll;
    OnlyCounted(calls, lost);
    RecordOneMore(calls + lost, c);
  }

  // ----- Reading out

  function Escape(c: char): (e: string)
    ensures 1 <= |e| <= 6
  {
    if c == '"' || c == '\\' then ['\\', c]
    else if c < ' ' then "\\u00" + [Digit(c as int / 16), Digit(c as int % 16)]
    else [c]
  }

  function EscapeAll(msg: string): string {
    if msg == "" then "" else Escape(msg[0]) + EscapeAll(msg[1..])
  }

  // The escaped characters that are written: none once fewer than eight places are left.
  function EscapeFit(msg: string, pos: nat, cap: nat): string {
    if msg == "" || pos + 7 >= cap then ""
    else Escape(msg[0]) + EscapeFit(msg[1..], pos + |Escape(msg[0])|, cap)
  }

  function Header(seqNo: nat, ts: nat, first: bool): string {
    (if first then "" else ",") + "{\"seq\":" + Decimal(seqNo) + ",\"ts\":" + Decimal(ts) + ",\"msg\":\""
  }

  // The code's estimate of the room an entry takes.
  function Need(msg: string): nat {
    32 + |msg| * 2 + 4
  }

  // What one entry does to the text: no room, cut off in the middle, or written and counted.
  datatype Written = NoRoom | BrokenOff(text: string) | Counted(text: string)

  function WriteEntry(line: Line, s: nat, text: string, first: bool, cap: nat): (w: Written)
    requires |text| < cap
    ensures w.NoRoom? || |w.text| < cap
  {
    if |text| + Need(line.msg) >= cap then NoRoom
    else
      var t1 := text + Header(s, line.ts, first);
      if |t1| >= cap then BrokenOff(t1[..cap - 1])
      else
        var t2 := t1 + EscapeFit(line.msg, |t1|, cap);
        FitBounds(line.msg, |t1|, cap);
        if |t2| + 2 >= cap then BrokenOff(t2) else Counted(t2 + "\"}")
  }

  // The text in the buffer and the entries counted, from seq s on.
  datatype Dump = Dump(text: string, count: nat)

  function Fill(lines: seq<Line>, s: nat, h: nat, cap: nat, d: Dump): (r: Dump)
    requires |lines| == MAX_LINES && |d.text| < cap
    ensures |r.text| < cap
    decreases h - s
  {
    if s >= h then d
    else
      match WriteEntry(lines[s % MAX_LINES], s, d.text, d.count == 0, cap)
      case NoRoom => d
      case BrokenOff(t) => Dump(t, d.count)
      case Counted(t) => Fill(lines, s + 1, h, cap, Dump(t, d.count + 1))
  }

  lemma {:induction false} FitBounds(msg: string, pos: nat, cap: nat)
    requires pos < cap
    ensures pos + |EscapeFit(msg, pos, cap)| < cap
  {
    if msg == "" || pos + 7 >= cap {
    } else {
      FitBounds(msg[1..], pos + |Escape(msg[0])|, cap);
    }
  }

  // ----- The ring

  // The ring holds the last 128 entries of the whole log, each in the slot of its number.
  ghost predicate HoldsRecent(lines: seq<Line>, all: seq<Entry>)
    requires |lines| == MAX_LINES
  {
    forall k :: 0 <= k < |all| && |all| - MAX_LINES <= k ==> lines[k % MAX_LINES] == Stored(all[k])
  }

  class LogBuffer {
    var lines: array<Line>
    var headSeq: u32
    var droppedPending: u32
    ghost var all: seq<Entry>

    ghost predicate Valid()
      reads this, lines
    {
      && lines.Length == MAX_LINES
      && headSeq == |all| % TWO32
      && HoldsRecent(lines[..], all)
    }

    ghost function Abs(): Log
      reads this
    {
      Log(all, droppedPending)
    }

    constructor ()
      ensures Valid() && fresh(lines) && Abs() == Log([], 0)
    {
      lines := new Line[MAX_LINES](_ => Line(0, ""));
      headSeq, droppedPending, all := 0, 0, [];
    }

    method Append(line: Line, ghost e: Entry)
      requires Valid() && line == Stored(e)
      modifies this, lines
      ensures Valid() && lines == old(lines)
      ensures all == old(all) + [e] && droppedPending == old(droppedPending)
    {
      var idx := headSeq % MAX_LINES;
      SlotOfSeq(|all|);
      forall k | 0 <= k < |all| && |all| - MAX_LINES < k ensures k % MAX_LINES != idx {
        SlotsApart(k, |all|);
      }
      lines[idx] := line;
      IncMod(|all|);
      headSeq := Inc(headSeq);
      all := all + [e];
    }

    // The whole hook: the text is made into a line, and an empty one leaves no trace.
    method LogHook(text: string, gotMutex: bool, markerTs: u32, ts: u32)
      requires Valid()
      modifies this, lines
      ensures Valid() && lines == old(lines)
      ensures Abs() == match Prepared(text)
        case None => old(Abs())
        case Some(line) => Record(old(Abs()), Call(line, gotMutex, markerTs, ts))
    {
      var line := Prepare(text);
      if line.Some? {
        PreparedShape(text);
        Hook(Call(line.value, gotMutex, markerTs, ts));
      }
    }

    // The ring part of the hook, for a line that fits.
    method Hook(c: Call)
      requires Valid() && |c.msg| < LINE_CAP
      modifies this, lines
      ensures Valid() && lines == old(lines) && Abs() == Record(old(Abs()), c)
    {
      if c.gotMutex {
        if droppedPending != 0 {
          var dropped := droppedPending;
          droppedPending := 0;
          Append(Line(c.markerTs, "<" + Decimal(dropped) + " log lines dropped (mutex contention)>"),
                 Marker(c.markerTs, dropped));
        }
        Append(Line(c.ts, c.msg), Text(c.ts, c.msg));
        assert old(all) + [] == old(all);
      } else {
        droppedPending := Inc(droppedPending);
      }
    }

    // Writes text at pos, cut to the buffer and terminated, like snprintf.
    method Print(out: array<char>, pos: nat, text: string)
      requires pos < out.Length
      modifies out
      ensures out[..pos] == old(out[..pos])
      ensures pos + |text| < out.Length ==> out[pos..pos + |text|] == text
      ensures pos + |text| >= out.Length ==> out[pos..out.Length - 1] == text[..out.Length - 1 - pos]
      ensures out[if pos + |text| < out.Length then pos + |text| else out.Length - 1] == '\0'
    {
      var n := if pos + |text| < out.Length then |text| else out.Length - 1 - pos;
      for i := 0 to n
        invariant out[..pos] == old(out[..pos]) && out[pos..pos + i] == text[..i]
      {
        out[pos + i] := text[i];
        assert out[pos..pos + i + 1] == out[pos..pos + i] + [text[i]];
      }
      out[pos + n] := '\0';
    }

    method PrintEscaped(out: array<char>, start: nat, msg: string) returns (pos: nat)
      requires start < out.Length
      modifies out
      ensures start <= pos < out.Length
      ensures out[..pos] == old(out[..start]) + EscapeFit(msg, start, out.Length)
    {
      hide Escape, EscapeFit;
      pos := start;
      var i := 0;
      ghost var done := "";
      assert msg[0..] == msg;
      while i < |msg| && pos + 7 < out.Length
        invariant i <= |msg| && start <= pos < out.Length
        invariant out[..pos] == old(out[..start]) + done
        invariant EscapeFit(msg, start, out.Length) == done + EscapeFit(msg[i..], pos, out.Length)
        decreases |msg| - i
      {
        var piece := Escape(msg[i]);
        FitStep(msg, i, pos, out.Length, done);
        Print(out, pos, piece);
        assert out[..pos + |piece|] == out[..pos] + out[pos..pos + |piece|];
        done := done + piece;
        pos := pos + |piece|;
        i := i + 1;
      }
      FitEnd(msg[i..], pos, out.Length);
    }

    method PrintHeader(out: array<char>, start: nat, header: string) returns (pos: nat)
      requires start < out.Length
      modifies out
      ensures pos == start + |header|
      ensures pos < out.Length ==> out[..pos] == old(out[..start]) + header
      ensures pos >= out.Length ==>
        out[..out.Length - 1] == (old(out[..start]) + header)[..out.Length - 1]
        && out[out.Length - 1] == '\0'
    {
      Print(out, start, header);
      pos := start + |header|;
      if pos < out.Length {
        assert out[..pos] == out[..start] + out[start..pos];
      } else {
        assert out[..out.Length - 1] == out[..start] + out[start..out.Length - 1];
      }
    }

    // Returns the position behind what was written; behind the buffer if the header was cut.
    method EmitEntry(out: array<char>, start: nat, s: nat, line: Line, first: bool)
      returns (pos: nat, counted: bool)
      requires start < out.Length
      modifies out
      ensures var w := WriteEntry(line, s, old(out[..start]), first, out.Length);
        && counted == w.Counted?
        && (w.NoRoom? ==> pos == start && out[..] == old(out[..]))
        && (!w.NoRoom? ==> out[..|w.text|] == w.text)
        && (!w.NoRoom? && pos < out.Length ==> pos == |w.text|)
        && (!w.NoRoom? && pos >= out.Length ==> !counted && out[|w.text|] == '\0')
    {
      hide Header, EscapeFit;
      pos, counted := start, false;
      if start + Need(line.msg) >= out.Length {
        return;
      }
      pos := PrintHeader(out, start, Header(s, line.ts, first));
      if pos >= out.Length {
        return;
      }
      FitBounds(line.msg, pos, out.Length);
      pos := PrintEscaped(out, pos, line.msg);
      if pos + 2 >= out.Length {
        return;
      }
      ghost var t2 := out[..pos];
      out[pos] := '"';
      out[pos + 1] := '}';
      pos := pos + 2;
      assert out[..pos] == t2 + "\"}";
      counted := true;
    }

    // The text is terminated inside the buffer and is what the specification says.
    method GetSince(since: u32, out: array<char>) returns (count: nat, head: u32, oldest: u32)
      requires Valid()
      modifies out
      ensures out.Length == 0 ==> count == head == oldest == 0
      ensures out.Length > 0 ==>
        && head == headSeq && oldest == (if head > MAX_LINES then head - MAX_LINES else 0)
        && var d := Fill(lines[..], if since < oldest then oldest else since, head, out.Length, Dump("", 0));
           count == d.count && out[..|d.text|] == d.text && out[|d.text|] == '\0'
    {
      hide WriteEntry, EscapeFit;
      if out.Length == 0 {
        return 0, 0, 0;
      }
      head := headSeq;
      oldest := if head > MAX_LINES then head - MAX_LINES else 0;
      var from: nat := if since < oldest then oldest else since;
      ghost var goal := Fill(lines[..], from, head, out.Length, Dump("", 0));
      count := 0;
      var s, pos := from, 0;
      while s < head
        invariant 0 <= pos < out.Length
        invariant goal == Fill(lines[..], s, head, out.Length, Dump(out[..pos], count))
        decreases head - s
      {
        ghost var w := WriteEntry(lines[s % MAX_LINES], s, out[..pos], count == 0, out.Length);
        var next, counted := EmitEntry(out, pos, s, lines[s % MAX_LINES], count == 0);
        pos := next;
        if !counted {
          if pos < out.Length {
            out[pos] := '\0';
          }
          return;
        }
        count := count + 1;
        s := s + 1;
      }
      out[pos] := '\0';
    }
  }

  lemma SlotOfSeq(n: nat)
    ensures n % TWO32 % MAX_LINES == n % MAX_LINES
  {
  }

  lemma SlotsApart(k: nat, n: nat)
    requires k < n < k + MAX_LINES
    ensures k % MAX_LINES != n % MAX_LINES
  {
  }

  lemma FitStep(msg: string, i: nat, pos: nat, cap: nat, done: string)
    requires i < |msg| && pos + 7 < cap
    ensures done + EscapeFit(msg[i..], pos, cap)
         == (done + Escape(msg[i])) + EscapeFit(msg[i + 1..], pos + |Escape(msg[i])|, cap)
  {
    hide Escape;
    assert msg[i..][1..] == msg[i + 1..];
  }

  lemma FitEnd(rest: string, pos: nat, cap: nat)
    requires rest == "" || pos + 7 >= cap
    ensures EscapeFit(rest, pos, cap) == ""
  {
  }
}
