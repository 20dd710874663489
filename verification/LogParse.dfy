/** A reader for the answers of the log, in the JSON of RFC 8259 that they use, and the proof that a
    clean answer reads back as the log's own numbers, time stamps and messages. */
module LogParse {
  import opened Bytes
  import opened LogRing
  import opened LogReading
  import opened LogAnswer

  datatype Record = Record(number: nat, ts: nat, msg: string)
  datatype Parsed<T> = Fail | Got(value: T, rest: string)

  function Literal(text: string, expected: string): (p: Parsed<()>)
    ensures p.Got? ==> |p.rest| == |text| - |expected|
  {
    if expected <= text then Got((), text[|expected|..]) else Fail
  }

  predicate IsDigit(c: char) {
    '0' <= c <= '9'
  }

  function HexValue(c: char): nat {
    if '0' <= c <= '9' then c as nat - '0' as nat
    else if 'a' <= c <= 'f' then c as nat - 'a' as nat + 10
    else 0
  }

  function CharOf(v: nat): char {
    if v < 0xD800 then v as char else '?'
  }

  // The digits in front, read on from acc.
  function Number(text: string, acc: nat): (r: (nat, string))
    ensures |r.1| <= |text|
    decreases |text|
  {
    if text == "" || !IsDigit(text[0]) then (acc, text)
    else Number(text[1..], acc * 10 + HexValue(text[0]))
  }

  function Prefixed(front: string, p: Parsed<string>): Parsed<string> {
    if p.Fail? then Fail else Got(front + p.value, p.rest)
  }

  // A string up to its closing quote, with the escapes undone.
  function Message(text: string): (p: Parsed<string>)
    ensures p.Got? ==> |p.rest| < |text|
    decreases |text|
  {
    if text == "" then Fail
    else if text[0] == '"' then Got("", text[1..])
    else if text[0] != '\\' then Prefixed([text[0]], Message(text[1..]))
    else if |text| < 2 then Fail
    else if text[1] != 'u' then Prefixed([text[1]], Message(text[2..]))
    else if |text| < 6 then Fail
    else Prefixed([CharOf(HexValue(text[2]) * 0x1000 + HexValue(text[3]) * 0x100
                          + HexValue(text[4]) * 0x10 + HexValue(text[5]))], Message(text[6..]))
  }

  function Item(text: string): (p: Parsed<Record>)
    ensures p.Got? ==> |p.rest| < |text|
  {
    var a := Literal(text, "{\"seq\":");
    if a.Fail? then Fail
    else
      var (number, b) := Number(a.rest, 0);
      var c := Literal(b, ",\"ts\":");
      if c.Fail? then Fail
      else
        var (ts, d) := Number(c.rest, 0);
        var e := Literal(d, ",\"msg\":\"");
        if e.Fail? then Fail
        else
          var m := Message(e.rest);
          if m.Fail? then Fail
          else
            var f := Literal(m.rest, "}");
            if f.Fail? then Fail else Got(Record(number, ts, m.value), f.rest)
  }

  // Further items, each behind a comma, up to the end of the text.
  function MoreItems(text: string): Parsed<seq<Record>>
    decreases |text|
  {
    if text == "" then Got([], "")
    else if text[0] != ',' then Fail
    else
      var a := Item(text[1..]);
      if a.Fail? then Fail
      else
        var more := MoreItems(a.rest);
        if more.Fail? then Fail else Got([a.value] + more.value, "")
  }

  function Items(text: string): Parsed<seq<Record>> {
    if text == "" then Got([], "")
    else
      var a := Item(text);
      if a.Fail? then Fail
      else
        var more := MoreItems(a.rest);
        if more.Fail? then Fail else Got([a.value] + more.value, "")
  }

  // ----- Each part reads back

  lemma DigitReadsBack(d: nat)
    requires d < 16
    ensures HexValue(Digit(d)) == d
  {
  }

  lemma LiteralReads(expected: string, rest: string)
    ensures Literal(expected + rest, expected) == Got((), rest)
  {
  }

  lemma DigitReads(d: nat, rest: string, acc: nat)
    requires d < 10
    ensures Number([Digit(d)] + rest, acc) == Number(rest, acc * 10 + d)
  {
    DigitReadsBack(d);
    assert ([Digit(d)] + rest)[1..] == rest;
  }

  lemma {:induction false} NumberReads(n: nat, rest: string)
    ensures Number(Decimal(n) + rest, 0) == Number(rest, n)
    decreases n
  {
    hide Number, Digit;
    DigitReads(n % 10, rest, n / 10);
    if n >= 10 {
      NumberReads(n / 10, [Digit(n % 10)] + rest);
      Regrouped(Decimal(n / 10), [Digit(n % 10)], rest);
    }
  }

  lemma MessageOne(c: char, rest: string)
    ensures Message(Escape(c) + rest) == Prefixed([c], Message(rest))
  {
    var e := Escape(c) + rest;
    if c == '"' || c == '\\' {
      assert e[2..] == rest;
    } else if c < ' ' {
      DigitReadsBack(c as int / 16);
      DigitReadsBack(c as int % 16);
      assert e[0] == '\\' && e[1] == 'u' && e[2] == '0' && e[3] == '0';
      assert e[4] == Digit(c as int / 16) && e[5] == Digit(c as int % 16);
      assert e[6..] == rest;
    } else {
      assert e[1..] == rest;
    }
  }

  lemma {:induction false} MessageReads(msg: string, rest: string)
    ensures Message(EscapeAll(msg) + ("\"" + rest)) == Got(msg, rest)
    decreases msg
  {
    if msg == "" {
      assert EscapeAll(msg) + ("\"" + rest) == "\"" + rest;
      assert ("\"" + rest)[1..] == rest;
    } else {
      hide Escape, Message;
      var tail := EscapeAll(msg[1..]) + ("\"" + rest);
      assert EscapeAll(msg) + ("\"" + rest) == Escape(msg[0]) + tail;
      MessageOne(msg[0], tail);
      MessageReads(msg[1..], rest);
      assert [msg[0]] + msg[1..] == msg;
    }
  }

  lemma ItemReads(line: Line, s: nat, rest: string)
    ensures Item(EntryText(line, s, true) + rest) == Got(Record(s, line.ts, line.msg), rest)
  {
    hide Decimal, Number, Message, EscapeAll, Literal;
    var r5 := "}" + rest;
    var r4 := EscapeAll(line.msg) + ("\"" + r5);
    var r3 := ",\"msg\":\"" + r4;
    var r2 := Decimal(line.ts) + r3;
    var r1 := ",\"ts\":" + r2;
    var r0 := Decimal(s) + r1;
    EntryParts(line, s, rest);
    LiteralReads("{\"seq\":", r0);
    NumberReads(s, r1);
    NumberStops(s, r1);
    LiteralReads(",\"ts\":", r2);
    NumberReads(line.ts, r3);
    NumberStops(line.ts, r3);
    LiteralReads(",\"msg\":\"", r4);
    MessageReads(line.msg, r5);
    LiteralReads("}", rest);
  }

  lemma NumberStops(n: nat, rest: string)
    requires rest != "" && rest[0] == ','
    ensures Number(rest, n) == (n, rest)
  {
  }

  lemma EntryParts(line: Line, s: nat, rest: string)
    ensures EntryText(line, s, true) + rest
         == "{\"seq\":" + (Decimal(s) + (",\"ts\":" + (Decimal(line.ts)
            + (",\"msg\":\"" + (EscapeAll(line.msg) + ("\"" + ("}" + rest)))))))
  {
    hide Decimal, EscapeAll;
    assert "\"}" == "\"" + "}";
  }

  // ----- The whole log reads back

  function Records(all: seq<Entry>, from: nat, n: nat): (r: seq<Record>)
    requires from + n <= |all|
    ensures |r| == n
    decreases n
  {
    if n == 0 then []
    else [Record(from, Stored(all[from]).ts, Stored(all[from]).msg)] + Records(all, from + 1, n - 1)
  }

  lemma {:induction false} RecordAt(all: seq<Entry>, from: nat, n: nat, i: nat)
    requires from + n <= |all| && i < n
    ensures Records(all, from, n)[i] == Record(from + i, Stored(all[from + i]).ts, Stored(all[from + i]).msg)
    decreases n
  {
    if i > 0 {
      RecordAt(all, from + 1, n - 1, i - 1);
    }
  }

  // n entries from number s on, each behind a comma.
  function MoreText(all: seq<Entry>, s: nat, n: nat): string
    requires s + n <= |all|
    decreases n
  {
    if n == 0 then "" else "," + EntryText(Stored(all[s]), s, true) + MoreText(all, s + 1, n - 1)
  }

  lemma {:induction false} MoreTextSnoc(all: seq<Entry>, s: nat, n: nat)
    requires s + n < |all|
    ensures MoreText(all, s, n + 1) == MoreText(all, s, n) + ("," + EntryText(Stored(all[s + n]), s + n, true))
    decreases n
  {
    hide EntryText, Stored;
    if n > 0 {
      MoreTextSnoc(all, s + 1, n - 1);
    }
  }

  lemma WithComma(line: Line, s: nat)
    ensures EntryText(line, s, false) == "," + EntryText(line, s, true)
  {
    hide EscapeAll, Decimal;
  }

  lemma MoreTextFront(all: seq<Entry>, s: nat, n: nat)
    requires s + n <= |all|
    ensures MoreText(all, s, 0) == ""
    ensures n > 0 ==>
      MoreText(all, s, n) == "," + EntryText(Stored(all[s]), s, true) + MoreText(all, s + 1, n - 1)
  {
  }

  lemma {:induction false} LogTextFront(all: seq<Entry>, from: nat, n: nat)
    requires 0 < n && from + n <= |all|
    ensures LogText(all, from, n) == EntryText(Stored(all[from]), from, true) + MoreText(all, from + 1, n - 1)
    decreases n
  {
    hide EntryText, Stored, LogText, MoreText;
    LogTextSnoc(all, from, n - 1);
    MoreTextFront(all, from + 1, 0);
    var front, last := EntryText(Stored(all[from]), from, true), Stored(all[from + n - 1]);
    if n == 1 {
      Units(front);
    } else {
      LogTextFront(all, from, n - 1);
      WithComma(last, from + n - 1);
      MoreTextSnoc(all, from + 1, n - 2);
      Regrouped(front, MoreText(all, from + 1, n - 2), "," + EntryText(last, from + n - 1, true));
    }
  }

  lemma Units<T>(a: seq<T>)
    ensures [] + a == a && a + [] == a
  {
  }

  lemma Regrouped<T>(a: seq<T>, b: seq<T>, c: seq<T>)
    ensures a + b + c == a + (b + c)
  {
  }

  lemma {:induction false} MoreReads(all: seq<Entry>, s: nat, n: nat)
    requires s + n <= |all|
    ensures MoreItems(MoreText(all, s, n)) == Got(Records(all, s, n), "")
    decreases n
  {
    hide MoreItems, Records, EntryText, Stored, MoreText;
    MoreTextFront(all, s, n);
    RecordsFront(all, s, n);
    if n == 0 {
      NoItems();
    } else {
      MoreReads(all, s + 1, n - 1);
      OneMoreItem(Stored(all[s]), s, MoreText(all, s + 1, n - 1), Records(all, s + 1, n - 1));
    }
  }

  lemma OneMoreItem(line: Line, s: nat, rest: string, more: seq<Record>)
    requires MoreItems(rest) == Got(more, "")
    ensures MoreItems("," + EntryText(line, s, true) + rest) == Got([Record(s, line.ts, line.msg)] + more, "")
  {
    ItemReads(line, s, rest);
    hide EntryText, Item;
    var text := EntryText(line, s, true) + rest;
    assert "," + EntryText(line, s, true) + rest == "," + text;
    assert ("," + text)[1..] == text;
  }

  lemma FirstItem(line: Line, s: nat, rest: string, more: seq<Record>)
    requires MoreItems(rest) == Got(more, "")
    ensures Items(EntryText(line, s, true) + rest) == Got([Record(s, line.ts, line.msg)] + more, "")
  {
    NonEmpty(line, s);
    ItemReads(line, s, rest);
    hide EntryText, Item, MoreItems;
  }

  lemma RecordsFront(all: seq<Entry>, s: nat, n: nat)
    requires s + n <= |all|
    ensures Records(all, s, 0) == []
    ensures n > 0 ==>
      Records(all, s, n) == [Record(s, Stored(all[s]).ts, Stored(all[s]).msg)] + Records(all, s + 1, n - 1)
  {
  }

  lemma NoItems()
    ensures MoreItems("") == Got([], "") && Items("") == Got([], "")
  {
  }

  // The log's text reads back as the log.
  lemma LogReadsBack(all: seq<Entry>, from: nat, n: nat)
    requires from + n <= |all|
    ensures Items(LogText(all, from, n)) == Got(Records(all, from, n), "")
  {
    hide Items, MoreItems, LogText, EntryText, MoreText, Records, Stored;
    if n == 0 {
      NoItems();
      LogTextSnoc(all, from, 0);
      RecordsFront(all, from, 0);
    } else {
      SomeReadBack(all, from, n);
    }
  }

  lemma SomeReadBack(all: seq<Entry>, from: nat, n: nat)
    requires 0 < n && from + n <= |all|
    ensures Items(LogText(all, from, n)) == Got(Records(all, from, n), "")
  {
    hide Items, MoreItems, LogText, EntryText, MoreText, Records, Stored;
    var line, rest, more := Stored(all[from]), MoreText(all, from + 1, n - 1), Records(all, from + 1, n - 1);
    LogTextFront(all, from, n);
    MoreReads(all, from + 1, n - 1);
    FirstItem(line, from, rest, more);
    RecordsFront(all, from, n);
  }

  lemma NonEmpty(line: Line, s: nat)
    ensures EntryText(line, s, true) != ""
  {
  }

  // So whatever a reader is given, if the entries begun fit, it reads back as the numbers, time
  // stamps and messages of the log's own lines, consecutively from where the reader starts.
  lemma AnswerReadsBack(lines: seq<Line>, all: seq<Entry>, since: nat, cap: nat)
    requires |lines| == MAX_LINES && HoldsRecent(lines, all) && cap > 0
    ensures var from := Start(since, |all|); var d := Fill(lines, from, |all|, cap, Dump("", 0));
      from <= |all| && LogBegunFit(all, from, cap) ==>
        from + d.count <= |all| && Items(d.text) == Got(Records(all, from, d.count), "")
  {
    hide Items, LogText, Records, LogBegunFit, HoldsRecent, Fill;
    ReaderGetsLog(lines, all, since, cap);
    var from := Start(since, |all|);
    var d := Fill(lines, from, |all|, cap, Dump("", 0));
    if from <= |all| {
      LogReadsBack(all, from, d.count);
    }
  }
}
