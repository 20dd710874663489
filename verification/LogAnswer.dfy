/** The whole answer to a reader of the log: when it is exactly the log's own lines. */
module LogAnswer {
  import opened Bytes
  import opened LogLine
  import opened LogRing
  import opened LogReading
  import opened Wrappers

  // ----- One entry after the other

  // n entries from number `from` on, separated by commas.
  function Joined(lines: seq<Line>, from: nat, n: nat): string
    requires |lines| == MAX_LINES
  {
    if n == 0 then ""
    else Joined(lines, from, n - 1) + EntryText(lines[(from + n - 1) % MAX_LINES], from + n - 1, n == 1)
  }

  lemma JoinedSnoc(lines: seq<Line>, from: nat, k: nat)
    requires |lines| == MAX_LINES
    ensures Joined(lines, from, 0) == ""
    ensures Joined(lines, from, k + 1)
         == Joined(lines, from, k) + EntryText(lines[(from + k) % MAX_LINES], from + k, k == 0)
  {
  }

  lemma StillPrefix<T>(a: seq<T>, b: seq<T>, c: seq<T>)
    requires a <= b
    ensures a <= b + c
  {
  }

  lemma {:induction false} JoinedExtends(lines: seq<Line>, from: nat, k: nat, n: nat)
    requires |lines| == MAX_LINES && k <= n
    ensures Joined(lines, from, k) <= Joined(lines, from, n)
    decreases n
  {
    hide EntryText, Joined;
    if k < n {
      JoinedExtends(lines, from, k, n - 1);
      JoinedSnoc(lines, from, n - 1);
      StillPrefix(Joined(lines, from, k), Joined(lines, from, n - 1),
                  EntryText(lines[(from + n - 1) % MAX_LINES], from + n - 1, n == 1));
    }
  }

  // One more number read, or the end.
  lemma FillStep(lines: seq<Line>, s: nat, h: nat, cap: nat, d: Dump)
    requires |lines| == MAX_LINES && |d.text| < cap
    ensures s >= h ==> Fill(lines, s, h, cap, d) == d
    ensures s < h ==>
      match WriteEntry(lines[s % MAX_LINES], s, d.text, d.count == 0, cap)
      case NoRoom => Fill(lines, s, h, cap, d) == d
      case BrokenOff(t) => Fill(lines, s, h, cap, d) == Dump(t, d.count)
      case Counted(t) => Fill(lines, s, h, cap, d) == Fill(lines, s + 1, h, cap, Dump(t, d.count + 1))
  {
  }

  // Writing an entry only appends; an entry that was begun leaves something.
  lemma WriteExtends(line: Line, s: nat, text: string, first: bool, cap: nat)
    requires |text| < cap
    ensures var w := WriteEntry(line, s, text, first, cap);
      && (w.NoRoom? <==> |text| + Need(line.msg) >= cap)
      && (!w.NoRoom? ==> text <= w.text && |text| < |w.text| < cap)
  {
    hide EscapeFit;
    var t1 := text + Header(s, line.ts, first);
    assert text <= t1 && |t1| > |text| && (|t1| >= cap ==> text <= t1[..cap - 1]);
  }

  lemma {:induction false} FillExtends(lines: seq<Line>, s: nat, h: nat, cap: nat, d: Dump)
    requires |lines| == MAX_LINES && |d.text| < cap
    ensures var r := Fill(lines, s, h, cap, d);
      d.text <= r.text && d.count <= r.count && (s <= h ==> s + r.count - d.count <= h)
    decreases h - s
  {
    hide Fill, WriteEntry, Need;
    FillStep(lines, s, h, cap, d);
    if s < h {
      WriteExtends(lines[s % MAX_LINES], s, d.text, d.count == 0, cap);
      var w := WriteEntry(lines[s % MAX_LINES], s, d.text, d.count == 0, cap);
      if w.Counted? {
        FillExtends(lines, s + 1, h, cap, Dump(w.text, d.count + 1));
      }
    }
  }

  // ----- A cut entry shows

  // The escapes that are written are the first ones, and a quote never comes next.
  lemma {:induction false} FitIsPrefix(msg: string, pos: nat, cap: nat)
    ensures var f, g := EscapeFit(msg, pos, cap), EscapeAll(msg);
      f <= g && (f != g ==> |f| < |g| && g[|f|] != '"')
  {
    if msg != "" {
      if pos + 7 < cap {
        FitIsPrefix(msg[1..], pos + |Escape(msg[0])|, cap);
      }
    }
  }

  lemma CutShows(line: Line, s: nat, first: bool, text: string, cap: nat)
    requires |text| < cap && WriteEntry(line, s, text, first, cap).Counted?
    requires !Fits(line, s, first, |text|, cap)
    ensures var t, u := WriteEntry(line, s, text, first, cap).text, text + EntryText(line, s, first);
      exists p :: 0 <= p < |t| && p < |u| && t[p] != u[p]
  {
    hide Header, EscapeFit, EscapeAll, LastEscape;
    var t, u := WriteEntry(line, s, text, first, cap).text, text + EntryText(line, s, first);
    WholeIffFits(line, s, first, text, cap);
    var t1 := text + Header(s, line.ts, first);
    var f, g := EscapeFit(line.msg, |t1|, cap), EscapeAll(line.msg);
    FitIsPrefix(line.msg, |t1|, cap);
    assert t == t1 + f + "\"}" && u == t1 + g + "\"}";
    assert f != g;
    var p := |t1| + |f|;
    assert t[p] == '"' && u[p] == g[|f|];
  }

  // ----- The answer

  // By the code's own estimate there is room for entry j behind those before it.
  predicate Begun(lines: seq<Line>, from: nat, h: nat, cap: nat, j: nat)
    requires |lines| == MAX_LINES
  {
    from + j < h && |Joined(lines, from, j)| + Need(lines[(from + j) % MAX_LINES].msg) < cap
  }

  predicate FitsAt(lines: seq<Line>, from: nat, cap: nat, j: nat)
    requires |lines| == MAX_LINES
  {
    Fits(lines[(from + j) % MAX_LINES], from + j, j == 0, |Joined(lines, from, j)|, cap)
  }

  // Every entry fits that is begun together with all those before it.
  ghost predicate BegunFit(lines: seq<Line>, from: nat, h: nat, cap: nat)
    requires |lines| == MAX_LINES
  {
    forall j: nat {:trigger FitsAt(lines, from, cap, j)} ::
      (forall i: nat :: i <= j ==> Begun(lines, from, h, cap, i)) ==> FitsAt(lines, from, cap, j)
  }

  // Exactly the whole entries of the first `count` numbers, ended only by the head or for lack of
  // room by the code's own estimate.
  predicate Clean(lines: seq<Line>, from: nat, h: nat, cap: nat, d: Dump)
    requires |lines| == MAX_LINES
  {
    && from + d.count <= h
    && d.text == Joined(lines, from, d.count)
    && (from + d.count < h ==> |d.text| + Need(lines[(from + d.count) % MAX_LINES].msg) >= cap)
  }

  lemma {:induction false} CleanIffFrom(lines: seq<Line>, from: nat, k: nat, h: nat, cap: nat)
    requires |lines| == MAX_LINES && from + k <= h && |Joined(lines, from, k)| < cap
    requires forall j: nat :: j < k ==> Begun(lines, from, h, cap, j)
    requires forall j: nat :: j < k ==> FitsAt(lines, from, cap, j)
    ensures var d := Fill(lines, from + k, h, cap, Dump(Joined(lines, from, k), k));
      Clean(lines, from, h, cap, d) <==> BegunFit(lines, from, h, cap)
    decreases h - from - k
  {
    hide Fill, WriteEntry, EntryText, Joined, Need, Fits;
    var s, text := from + k, Joined(lines, from, k);
    var line := lines[s % MAX_LINES];
    FillStep(lines, s, h, cap, Dump(text, k));
    if Begun(lines, from, h, cap, k) {
      WriteExtends(line, s, text, k == 0, cap);
      WholeIffFits(line, s, k == 0, text, cap);
      JoinedSnoc(lines, from, k);
      if FitsAt(lines, from, cap, k) {
        CleanIffFrom(lines, from, k + 1, h, cap);
      } else {
        assert forall i: nat :: i <= k ==> Begun(lines, from, h, cap, i);
        UnfitSpoils(lines, from, k, h, cap);
      }
    } else {
      if s < h {
        WriteExtends(line, s, text, k == 0, cap);
      }
      NotBegunEnds(lines, from, k, h, cap);
    }
  }

  lemma NotBegunEnds(lines: seq<Line>, from: nat, k: nat, h: nat, cap: nat)
    requires |lines| == MAX_LINES && !Begun(lines, from, h, cap, k)
    requires forall j: nat :: j < k ==> FitsAt(lines, from, cap, j)
    ensures BegunFit(lines, from, h, cap)
  {
    hide Begun, FitsAt;
  }

  // An entry that is begun and does not fit spoils the answer, whatever comes after it.
  lemma UnfitSpoils(lines: seq<Line>, from: nat, k: nat, h: nat, cap: nat)
    requires |lines| == MAX_LINES && Begun(lines, from, h, cap, k) && !FitsAt(lines, from, cap, k)
    ensures var d := Fill(lines, from + k, h, cap, Dump(Joined(lines, from, k), k));
      !Clean(lines, from, h, cap, d)
  {
    hide Fill, WriteEntry, EntryText, Joined, Need, Fits;
    var s, text := from + k, Joined(lines, from, k);
    var line := lines[s % MAX_LINES];
    var d := Fill(lines, s, h, cap, Dump(text, k));
    FillStep(lines, s, h, cap, Dump(text, k));
    WriteExtends(line, s, text, k == 0, cap);
    var w := WriteEntry(line, s, text, k == 0, cap);
    if w.Counted? {
      CutShows(line, s, k == 0, text, cap);
      JoinedSnoc(lines, from, k);
      var p :| 0 <= p < |w.text| && p < |Joined(lines, from, k + 1)| && w.text[p] != Joined(lines, from, k + 1)[p];
      FillExtends(lines, s + 1, h, cap, Dump(w.text, k + 1));
      JoinedExtends(lines, from, k + 1, d.count);
      assert d.text[p] == w.text[p] && Joined(lines, from, d.count)[p] == Joined(lines, from, k + 1)[p];
    }
  }

  // The answer is clean exactly if every entry fits that is begun together with all those before it.
  lemma CleanIff(lines: seq<Line>, from: nat, h: nat, cap: nat)
    requires |lines| == MAX_LINES && from <= h && cap > 0
    ensures Clean(lines, from, h, cap, Fill(lines, from, h, cap, Dump("", 0))) <==> BegunFit(lines, from, h, cap)
  {
    hide Fill, Joined, FitsAt, Begun, BegunFit, Clean;
    JoinedSnoc(lines, from, 0);
    CleanIffFrom(lines, from, 0, h, cap);
  }

  // ----- The reader against the whole log

  // n entries of the whole log from number `from` on, separated by commas.
  function LogText(all: seq<Entry>, from: nat, n: nat): string
    requires from + n <= |all|
  {
    if n == 0 then ""
    else LogText(all, from, n - 1) + EntryText(Stored(all[from + n - 1]), from + n - 1, n == 1)
  }

  lemma LogTextSnoc(all: seq<Entry>, from: nat, k: nat)
    requires from + k <= |all|
    ensures LogText(all, from, 0) == ""
    ensures from + k < |all| ==>
      LogText(all, from, k + 1) == LogText(all, from, k) + EntryText(Stored(all[from + k]), from + k, k == 0)
  {
  }

  lemma KeptAt(lines: seq<Line>, all: seq<Entry>, s: nat)
    requires |lines| == MAX_LINES && HoldsRecent(lines, all) && s < |all| <= s + MAX_LINES
    ensures lines[s % MAX_LINES] == Stored(all[s])
  {
  }

  lemma {:induction false} JoinedIsLogText(lines: seq<Line>, all: seq<Entry>, from: nat, n: nat)
    requires |lines| == MAX_LINES && HoldsRecent(lines, all)
    requires from + n <= |all| && |all| - MAX_LINES <= from
    ensures Joined(lines, from, n) == LogText(all, from, n)
    decreases n
  {
    var m: nat := if n == 0 then 0 else n - 1;
    JoinedSnoc(lines, from, m);
    LogTextSnoc(all, from, m);
    hide EntryText, HoldsRecent, Stored, Joined, LogText;
    if n > 0 {
      JoinedIsLogText(lines, all, from, m);
      KeptAt(lines, all, from + m);
    }
  }

  // Where a reader that asks for lines from `since` on starts.
  function Start(since: nat, head: nat): nat {
    var oldest := if head > MAX_LINES then head - MAX_LINES else 0;
    if since < oldest then oldest else since
  }

  // By the code's own estimate there is room for entry j behind those before it.
  predicate LogBegun(all: seq<Entry>, from: nat, cap: nat, j: nat) {
    from + j < |all| && |LogText(all, from, j)| + Need(Stored(all[from + j]).msg) < cap
  }

  predicate LogFitsAt(all: seq<Entry>, from: nat, cap: nat, j: nat) {
    from + j < |all| ==> Fits(Stored(all[from + j]), from + j, j == 0, |LogText(all, from, j)|, cap)
  }

  // Every entry fits that is begun together with all those before it.
  ghost predicate LogBegunFit(all: seq<Entry>, from: nat, cap: nat) {
    forall j: nat {:trigger LogFitsAt(all, from, cap, j)} ::
      (forall i: nat :: i <= j ==> LogBegun(all, from, cap, i)) ==> LogFitsAt(all, from, cap, j)
  }

  // Until the counter wraps, a reader gets the whole log's own lines from the later of `since` and
  // the oldest one kept -- whole, in order, without gap, up to the newest or for as long as the room
  // estimate lets another one in -- exactly if every entry fits that is begun with those before it.
  lemma ReaderGetsLog(lines: seq<Line>, all: seq<Entry>, since: nat, cap: nat)
    requires |lines| == MAX_LINES && HoldsRecent(lines, all) && cap > 0
    ensures var from := Start(since, |all|); var d := Fill(lines, from, |all|, cap, Dump("", 0));
      if from > |all| then d == Dump("", 0)
      else
        && from + d.count <= |all|
        && (d.text == LogText(all, from, d.count)
            && (from + d.count < |all| ==> |d.text| + Need(Stored(all[from + d.count]).msg) >= cap)
            <==> LogBegunFit(all, from, cap))
  {
    hide Fill, Joined, LogText, Need, HoldsRecent, EntryText, Stored, BegunFit, LogBegunFit;
    var h, from := |all|, Start(since, |all|);
    FillStep(lines, from, h, cap, Dump("", 0));
    if from <= h {
      var d := Fill(lines, from, h, cap, Dump("", 0));
      FillExtends(lines, from, h, cap, Dump("", 0));
      CleanIff(lines, from, h, cap);
      JoinedIsLogText(lines, all, from, d.count);
      if from + d.count < h {
        KeptAt(lines, all, from + d.count);
      }
      SameBegunFit(lines, all, from, cap);
    }
  }

  lemma SameBegunFit(lines: seq<Line>, all: seq<Entry>, from: nat, cap: nat)
    requires |lines| == MAX_LINES && HoldsRecent(lines, all) && |all| - MAX_LINES <= from
    ensures BegunFit(lines, from, |all|, cap) <==> LogBegunFit(all, from, cap)
  {
    hide FitsAt, LogFitsAt, Begun, LogBegun, HoldsRecent;
    forall j: nat
      ensures Begun(lines, from, |all|, cap, j) == LogBegun(all, from, cap, j)
      ensures LogBegun(all, from, cap, j) ==> FitsAt(lines, from, cap, j) == LogFitsAt(all, from, cap, j)
    {
      SameFit(lines, all, from, cap, j);
    }
  }

  lemma SameFit(lines: seq<Line>, all: seq<Entry>, from: nat, cap: nat, j: nat)
    requires |lines| == MAX_LINES && HoldsRecent(lines, all) && |all| - MAX_LINES <= from
    ensures Begun(lines, from, |all|, cap, j) == LogBegun(all, from, cap, j)
    ensures LogBegun(all, from, cap, j) ==> FitsAt(lines, from, cap, j) == LogFitsAt(all, from, cap, j)
  {
    hide Joined, LogText, Need, HoldsRecent, Stored, Fits;
    if from + j < |all| {
      JoinedIsLogText(lines, all, from, j);
      KeptAt(lines, all, from + j);
    }
  }

  // ----- A log that is safe, and one that is not

  // A log of lines of twelve or more characters without escapes is always read cleanly.
  lemma PlainLogFits(all: seq<Entry>, from: nat, cap: nat)
    requires |all| < TWO32
    requires forall s :: from <= s < |all| ==> Plain(Stored(all[s]).msg) && |Stored(all[s]).msg| >= 12
    ensures LogBegunFit(all, from, cap)
  {
    hide Stored;
    forall j: nat | forall i: nat :: i <= j ==> LogBegun(all, from, cap, i)
      ensures LogFitsAt(all, from, cap, j)
    {
      assert LogBegun(all, from, cap, j);
      PlainLinesRoomy(Stored(all[from + j]), from + j, j == 0);
      hide Header, EscapeAll, LastEscape;
    }
  }

  // While every entry is begun and fits, the text grows by whole entries.
  lemma {:induction false} FillUpTo(lines: seq<Line>, from: nat, k: nat, h: nat, cap: nat)
    requires |lines| == MAX_LINES && from + k <= h && cap > 0
    requires forall j: nat :: j < k ==>
      Begun(lines, from, h, cap, j) && FitsAt(lines, from, cap, j)
    ensures |Joined(lines, from, k)| < cap
    ensures Fill(lines, from, h, cap, Dump("", 0)) == Fill(lines, from + k, h, cap, Dump(Joined(lines, from, k), k))
    decreases k
  {
    hide Fill, WriteEntry, EntryText, Joined, Need, Fits;
    if k == 0 {
      JoinedSnoc(lines, from, 0);
    } else {
      var m: nat := k - 1;
      FillUpTo(lines, from, m, h, cap);
      var s, text := from + m, Joined(lines, from, m);
      assert Begun(lines, from, h, cap, m) && FitsAt(lines, from, cap, m);
      FillStep(lines, s, h, cap, Dump(text, m));
      WriteExtends(lines[s % MAX_LINES], s, text, m == 0, cap);
      WholeIffFits(lines[s % MAX_LINES], s, m == 0, text, cap);
      JoinedSnoc(lines, from, m);
    }
  }

  const WEB_CAP: nat := 7000
  function Repeat(n: nat): string {
    seq(n, _ => 'x')
  }

  // From four and a half days on, a call each second: lines of 30 characters, one of 64 among them, and
  // as number 1000 a message that begins with a line break.
  function LateText(s: nat): string {
    if s < 1000 then LateLine(s) + "\n" else "\nx"
  }

  function LateLine(s: nat): string {
    if s == 895 then Repeat(64) else if s < 1000 then Repeat(30) else ""
  }

  function LateTime(s: nat): u32
    requires s <= 1000
  {
    400_000_000 + 1000 * s
  }

  function LateCalls(): seq<Call> {
    seq(1001, s requires 0 <= s < 1001 => Call(LateLine(s), true, LateTime(s), LateTime(s)))
  }

  function LateLog(): seq<Entry> {
    seq(1001, s requires 0 <= s < 1001 => Text(LateTime(s), LateLine(s)))
  }

  lemma {:induction false} NoneDropped(calls: seq<Call>)
    requires forall i :: 0 <= i < |calls| ==> calls[i].gotMutex
    ensures var l := RecordAll(calls);
      && l.dropped == 0 && |l.all| == |calls|
      && forall i :: 0 <= i < |calls| ==> l.all[i] == Text(calls[i].ts, calls[i].msg)
  {
    if calls != [] {
      NoneDropped(calls[..|calls| - 1]);
    }
  }

  // The hook, always given the mutex, makes this log of those texts.
  lemma LateLogRecorded()
    ensures forall s :: 0 <= s < 1001 ==> LateCalls()[s].gotMutex && Prepared(LateText(s)) == Some(LateCalls()[s].msg)
    ensures RecordAll(LateCalls()).all == LateLog()
  {
    forall s | 0 <= s < 1001 ensures LateCalls()[s].gotMutex && Prepared(LateText(s)) == Some(LateCalls()[s].msg) {
      LateTextStored(s);
    }
    hide Prepared;
    NoneDropped(LateCalls());
  }

  lemma LateTextStored(s: nat)
    requires s < 1001
    ensures Prepared(LateText(s)) == Some(LateLine(s))
  {
    hide Prepared;
    if s < 1000 {
      PreparedPlain(LateLine(s), "\n");
    } else {
      BreakThenX();
    }
  }

  lemma BreakThenX()
    ensures Prepared("\nx") == Some("")
  {
    assert "\nx" == "\n" + "x" && "\nx" + "\0" == "\nx\0" && "\nx\0"[..2] == "\nx";
    CStringIs("\nx\0", 2);
    StripPlain("\nx");
    assert !Break(Shown("\nx")[1]);
    LeadingBreakLeavesEmpty("x");
  }

  lemma LateEntryLength(s: nat)
    requires 895 <= s <= 1000
    ensures var line, first := Line(LateTime(s), LateLine(s)), s == 895;
      && EscapeAll(line.msg) == line.msg
      && |Header(s, line.ts, first)| == (if first then 33 else if s < 1000 then 34 else 35)
  {
    PlainEscapes(LateLine(s));
    assert Ten(2) == 100 && Ten(3) == 1000 && Ten(4) == 10_000;
    assert Ten(5) == 100_000;
    assert Ten(8) == 100_000_000 && Ten(9) == 1_000_000_000;
    DecimalLength(s, if s < 1000 then 3 else 4);
    DecimalLength(LateTime(s), 9);
  }

  lemma {:induction false} LateTextLength(n: nat)
    requires n <= 105
    ensures |LogText(LateLog(), 895, n)| == if n == 0 then 0 else 66 * n + 33
  {
    LogTextSnoc(LateLog(), 895, if n == 0 then 0 else n - 1);
    if n > 0 {
      hide LogText, Header, EscapeAll;
      LateTextLength(n - 1);
      LateEntryLength(894 + n);
    }
  }

  // The web page reads this log from number 895 on into its buffer of 7000 characters: 105 entries are
  // whole, the next passes the size check and is left unclosed.
  lemma WebAnswerBroken(lines: seq<Line>)
    requires |lines| == MAX_LINES && HoldsRecent(lines, LateLog())
    ensures Start(895, 1001) == 895
    ensures var d := Fill(lines, 895, 1001, WEB_CAP, Dump("", 0));
      && d == Dump(LogText(LateLog(), 895, 105) + Header(1000, LateTime(1000), false), 105)
      && !Clean(lines, 895, 1001, WEB_CAP, d)
  {
    var all := LateLog();
    forall j: nat | j < 105
      ensures Begun(lines, 895, 1001, WEB_CAP, j) && FitsAt(lines, 895, WEB_CAP, j)
    {
      LateFits(lines, j);
    }
    hide Fill, Joined, Header, LogText, Clean, HoldsRecent, LateLog, WriteEntry;
    FillUpTo(lines, 895, 105, 1001, WEB_CAP);
    JoinedIsLogText(lines, all, 895, 105);
    LateTextLength(105);
    KeptAt(lines, all, 1000);
    LateAt(1000);
    ShortLineBroken(LogText(all, 895, 105));
    FillStep(lines, 1000, 1001, WEB_CAP, Dump(LogText(all, 895, 105), 105));
    CleanText(lines, 895, 1001, WEB_CAP, Fill(lines, 895, 1001, WEB_CAP, Dump("", 0)));
  }

  lemma CleanText(lines: seq<Line>, from: nat, h: nat, cap: nat, d: Dump)
    requires |lines| == MAX_LINES
    ensures d.text != Joined(lines, from, d.count) ==> !Clean(lines, from, h, cap, d)
  {
  }

  lemma LateAt(s: nat)
    requires s < 1001
    ensures |LateLog()| == 1001 && Stored(LateLog()[s]) == Line(LateTime(s), LateLine(s))
  {
  }

  lemma LateFits(lines: seq<Line>, j: nat)
    requires |lines| == MAX_LINES && HoldsRecent(lines, LateLog()) && j < 105
    ensures Begun(lines, 895, 1001, WEB_CAP, j) && FitsAt(lines, 895, WEB_CAP, j)
  {
    LateAt(895 + j);
    hide Joined, LogText, HoldsRecent, LateLog, Header, EscapeAll;
    JoinedIsLogText(lines, LateLog(), 895, j);
    LateTextLength(j);
    KeptAt(lines, LateLog(), 895 + j);
    LateEntryLength(895 + j);
  }

  // Behind any text of 6963 characters, the empty line number 1000 passes the size check of the web
  // page's buffer and is left unclosed.
  lemma ShortLineBroken(text: string)
    requires |text| == 6963
    ensures WriteEntry(Line(LateTime(1000), ""), 1000, text, false, WEB_CAP)
         == BrokenOff(text + Header(1000, LateTime(1000), false))
  {
    LateEntryLength(1000);
    hide Header;
    assert EscapeFit("", 6998, WEB_CAP) == "";
    var t := text + Header(1000, LateTime(1000), false);
    assert t + "" == t;
  }
}
