/** How the log hook makes one stored line of the text of a log call: cut to the buffer, colour
    sequences stripped in place, trailing line breaks trimmed, ended at the first inner one. */
module LogLine {
  import opened Wrappers

  const LINE_CAP: nat := 200
  const ESC: char := '\U{001b}'

  // The string a buffer holds: what precedes the first NUL.
  function CString(s: string): (t: string)
    ensures t <= s && '\0' !in t
    ensures |t| < |s| ==> s[|t|] == '\0'
    ensures '\0' in s ==> |t| < |s|
  {
    if s == "" || s[0] == '\0' then "" else [s[0]] + CString(s[1..])
  }

  lemma {:induction false} CStringIs(s: string, n: nat)
    requires n < |s| && s[n] == '\0' && '\0' !in s[..n]
    ensures CString(s) == s[..n]
  {
    if n > 0 {
      assert s[..n][0] == s[0] && s[1..][..n - 1] == s[..n][1..];
      CStringIs(s[1..], n - 1);
    }
  }

  // ----- Colour sequences

  // What follows the first m.
  function AfterM(s: string): (t: string)
    ensures |t| <= |s|
  {
    if s == "" then "" else if s[0] == 'm' then s[1..] else AfterM(s[1..])
  }

  function Strip(s: string): (t: string)
    ensures |t| <= |s|
    decreases |s|
  {
    if s == "" then ""
    else if s[0] == ESC && |s| >= 2 && s[1] == '[' then Strip(AfterM(s[2..]))
    else [s[0]] + Strip(s[1..])
  }

  lemma {:induction false} AfterMChars(s: string)
    ensures forall c :: c in AfterM(s) ==> c in s
  {
    if s != "" && s[0] != 'm' {
      AfterMChars(s[1..]);
    }
  }

  lemma {:induction false} StripChars(s: string)
    ensures forall c :: c in Strip(s) ==> c in s
    decreases |s|
  {
    if s == "" {
    } else if s[0] == ESC && |s| >= 2 && s[1] == '[' {
      AfterMChars(s[2..]);
      StripChars(AfterM(s[2..]));
    } else {
      StripChars(s[1..]);
    }
  }

  // Text without escape characters is left alone.
  lemma {:induction false} StripPlain(s: string)
    requires ESC !in s
    ensures Strip(s) == s
    decreases |s|
  {
    if s != "" {
      StripPlain(s[1..]);
    }
  }

  lemma {:induction false} StripFront(a: string, b: string)
    requires ESC !in a
    ensures Strip(a + b) == a + Strip(b)
    decreases |a|
  {
    if a == "" {
      assert a + b == b;
    } else {
      assert (a + b)[1..] == a[1..] + b;
      StripFront(a[1..], b);
      assert [a[0]] + (a[1..] + Strip(b)) == a + Strip(b);
    }
  }

  lemma {:induction false} AfterFirstM(mid: string, b: string)
    requires 'm' !in mid
    ensures AfterM(mid + "m" + b) == b && AfterM(mid) == ""
    decreases |mid|
  {
    if mid == "" {
      assert mid + "m" + b == "m" + b && ("m" + b)[1..] == b;
    } else {
      assert (mid + "m" + b)[1..] == mid[1..] + "m" + b;
      AfterFirstM(mid[1..], b);
    }
  }

  // A colour sequence reaches from ESC [ to the next m and is taken out; what is in front of it and
  // behind it stays, and what is behind it is treated in the same way.
  lemma ColourTakenOut(a: string, mid: string, b: string)
    requires ESC !in a && 'm' !in mid
    ensures Strip(a + ([ESC, '['] + (mid + "m" + b))) == a + Strip(b)
  {
    var rest := mid + "m" + b;
    AfterFirstM(mid, b);
    assert ([ESC, '['] + rest)[2..] == rest;
    hide AfterM;
    StripStep([ESC, '['] + rest);
    hide Strip;
    StripFront(a, [ESC, '['] + rest);
  }

  // One that is never finished is taken out to the end.
  lemma UnfinishedTakenOut(a: string, mid: string)
    requires ESC !in a && 'm' !in mid
    ensures Strip(a + ([ESC, '['] + mid)) == a
  {
    AfterFirstM(mid, "");
    assert ([ESC, '['] + mid)[2..] == mid;
    hide AfterM;
    StripStep([ESC, '['] + mid);
    StripStep("");
    hide Strip;
    StripFront(a, [ESC, '['] + mid);
    assert a + "" == a;
  }

  // The reader skips a sequence: past the next m, or to the end.
  method SkipSequence(buf: array<char>, start: nat, n: nat) returns (r: nat)
    requires start <= n < buf.Length && buf[n] == '\0' && '\0' !in buf[..n]
    ensures start <= r <= n && buf[r..n] == AfterM(buf[start..n])
  {
    r := start;
    while buf[r] != '\0' && buf[r] != 'm'
      invariant start <= r <= n
      invariant AfterM(buf[start..n]) == AfterM(buf[r..n])
      decreases n - r
    {
      assert r < n;
      assert buf[r..n][1..] == buf[r + 1..n];
      r := r + 1;
    }
    if buf[r] != '\0' {
      assert r < n;
      assert buf[r..n][1..] == buf[r + 1..n];
      r := r + 1;
    } else {
      NulIsEnd(buf[..], r, n);
    }
  }

  lemma NulIsEnd(s: string, r: nat, n: nat)
    requires r <= n < |s| && s[n] == '\0' && '\0' !in s[..n] && s[r] == '\0'
    ensures r == n
  {
    assert forall i :: 0 <= i < n ==> s[..n][i] == s[i];
  }

  lemma StripStep(s: string)
    ensures s == "" ==> Strip(s) == ""
    ensures |s| >= 2 && s[0] == ESC && s[1] == '[' ==> Strip(s) == Strip(AfterM(s[2..]))
    ensures s != "" && !(|s| >= 2 && s[0] == ESC && s[1] == '[') ==> Strip(s) == [s[0]] + Strip(s[1..])
  {
  }

  // Both pointers run over the same buffer; returns the new length.
  method StripInPlace(buf: array<char>, n: nat) returns (w: nat)
    requires n < buf.Length && buf[n] == '\0' && '\0' !in buf[..n]
    modifies buf
    ensures w <= n && buf[w] == '\0' && '\0' !in buf[..w]
    ensures buf[..w] == Strip(old(buf[..n]))
  {
    hide Strip, AfterM;
    ghost var s := buf[..n];
    var r := 0;
    w := 0;
    while buf[r] != '\0'
      invariant w <= r <= n && buf[n] == '\0' && '\0' !in buf[..n]
      invariant buf[..w] + Strip(buf[r..n]) == Strip(s)
      decreases n - r
    {
      assert r < n;
      if buf[r] == ESC && buf[r + 1] == '[' {
        assert r + 1 < n;
        assert buf[r..n][2..] == buf[r + 2..n];
        StripStep(buf[r..n]);
        r := SkipSequence(buf, r + 2, n);
      } else {
        assert buf[r..n][1..] == buf[r + 1..n];
        ghost var kept, rest, c := buf[..w], buf[r + 1..n], buf[r];
        StripStep(buf[r..n]);
        buf[w] := buf[r];
        assert buf[..w + 1] == kept + [c] && buf[r + 1..n] == rest;
        assert kept + ([c] + Strip(rest)) == (kept + [c]) + Strip(rest);
        w, r := w + 1, r + 1;
      }
    }
    NulIsEnd(buf[..], r, n);
    StripStep("");
    assert buf[r..n] == "" && buf[..w] + "" == buf[..w];
    buf[w] := '\0';
    NoNul(buf[..w], s);
  }

  lemma NoNul(t: string, s: string)
    requires t == Strip(s) && '\0' !in s
    ensures '\0' !in t
  {
    StripChars(s);
  }

  // ----- Line breaks

  predicate Break(c: char) {
    c == '\n' || c == '\r'
  }

  function TrimEnd(s: string): string {
    if s == "" then "" else if Break(s[|s| - 1]) then TrimEnd(s[..|s| - 1]) else s
  }

  function FirstLine(s: string): (t: string)
    ensures t <= s && '\n' !in t
    ensures |t| < |s| ==> s[|t|] == '\n'
  {
    if s == "" || s[0] == '\n' then "" else [s[0]] + FirstLine(s[1..])
  }

  // ----- The hook's preparation

  // The text in the buffer once it is cut and its colour sequences are stripped.
  function Shown(text: string): string {
    var cut := if |text| >= LINE_CAP then text[..LINE_CAP - 1] else text;
    Strip(CString(cut + "\0"))
  }

  // The line to store for a log call that produced this text, if any.
  function Prepared(text: string): Option<string> {
    var line := TrimEnd(Shown(text));
    if text == "" || line == "" then None else Some(FirstLine(line))
  }

  method Prepare(text: string) returns (line: Option<string>)
    ensures line == Prepared(text)
  {
    hide Strip, TrimEnd, FirstLine, CString;
    if |text| == 0 {
      return None;
    }
    var cut := if |text| >= LINE_CAP then text[..LINE_CAP - 1] else text;
    var tmp, n := Format(cut);
    var l := StripInPlace(tmp, n);
    l := TrimInPlace(tmp, l);
    if l == 0 {
      return None;
    }
    var k := BreakAt(tmp, l);
    return Some(tmp[..k]);
  }

  // The text in a buffer of its own, with its length as a string.
  method Format(cut: string) returns (tmp: array<char>, n: nat)
    requires |cut| < LINE_CAP
    ensures fresh(tmp) && n < tmp.Length && tmp[n] == '\0' && '\0' !in tmp[..n]
    ensures tmp[..n] == CString(cut + "\0")
  {
    tmp := new char[LINE_CAP](_ => '\0');
    for i := 0 to |cut|
      invariant tmp[..i] == cut[..i] && tmp[|cut|] == '\0'
    {
      tmp[i] := cut[i];
    }
    assert cut[..|cut|] == cut;
    n := Length(tmp, |cut|);
    assert tmp[..|cut| + 1] == cut + "\0";
    assert (cut + "\0")[..n] == tmp[..n] && (cut + "\0")[n] == tmp[n];
    CStringIs(cut + "\0", n);
  }

  method TrimInPlace(tmp: array<char>, n: nat) returns (l: nat)
    requires n < tmp.Length && tmp[n] == '\0'
    modifies tmp
    ensures l <= n && tmp[l] == '\0' && tmp[..l] == TrimEnd(old(tmp[..n]))
  {
    ghost var t := tmp[..n];
    l := n;
    while l > 0 && (tmp[l - 1] == '\n' || tmp[l - 1] == '\r')
      invariant l <= n && tmp[l] == '\0' && tmp[..l] == t[..l]
      invariant TrimEnd(t) == TrimEnd(t[..l])
      decreases l
    {
      l := l - 1;
      assert tmp[..l + 1][l] == t[..l + 1][l] == tmp[l];
      assert t[..l + 1][..l] == t[..l] && tmp[..l + 1][..l] == tmp[..l];
      tmp[l] := '\0';
    }
    assert l > 0 ==> tmp[..l][l - 1] == tmp[l - 1] == t[..l][l - 1];
  }

  // strchr for a line break.
  method BreakAt(tmp: array<char>, l: nat) returns (k: nat)
    requires l <= tmp.Length
    ensures k <= l && tmp[..k] == FirstLine(tmp[..l])
  {
    k := 0;
    while k < l && tmp[k] != '\n'
      invariant k <= l && '\n' !in tmp[..k]
    {
      k := k + 1;
    }
    assert tmp[..l][..k] == tmp[..k];
    FirstLineIs(tmp[..l], k);
  }

  // strlen, for a buffer known to hold a NUL at or before `bound`.
  method Length(buf: array<char>, bound: nat) returns (n: nat)
    requires bound < buf.Length && buf[bound] == '\0'
    ensures n <= bound && buf[n] == '\0' && '\0' !in buf[..n]
  {
    n := 0;
    while buf[n] != '\0'
      invariant n <= bound && '\0' !in buf[..n]
      decreases bound - n
    {
      n := n + 1;
    }
  }

  lemma {:induction false} FirstLineIs(s: string, k: nat)
    requires k <= |s| && '\n' !in s[..k] && (k < |s| ==> s[k] == '\n')
    ensures FirstLine(s) == s[..k]
  {
    if k > 0 {
      assert s[..k][0] == s[0] && s[1..][..k - 1] == s[..k][1..];
      FirstLineIs(s[1..], k - 1);
    }
  }

  // ----- What a stored line is like

  lemma {:induction false} TrimEndShape(s: string)
    ensures TrimEnd(s) <= s
    ensures TrimEnd(s) != "" ==> !Break(TrimEnd(s)[|TrimEnd(s)| - 1])
  {
    if s != "" && Break(s[|s| - 1]) {
      TrimEndShape(s[..|s| - 1]);
    }
  }

  // It fits a slot of the ring, is one line, and holds no NUL.
  lemma PreparedShape(text: string)
    requires Prepared(text).Some?
    ensures |Prepared(text).value| < LINE_CAP && '\n' !in Prepared(text).value && '\0' !in Prepared(text).value
  {
    var cut := if |text| >= LINE_CAP then text[..LINE_CAP - 1] else text;
    var c := CString(cut + "\0");
    NoNul(Strip(c), c);
    TrimEndShape(Strip(c));
    assert (cut + "\0")[|cut|] == '\0';
  }

  // Text of fewer than 200 printable characters is stored as it is, line breaks at its end left out.
  lemma PreparedPlain(text: string, ending: string)
    requires 0 < |text| && |text + ending| < 200
    requires forall i :: 0 <= i < |text| ==> text[i] >= ' '
    requires forall i :: 0 <= i < |ending| ==> ending[i] == '\n' || ending[i] == '\r'
    ensures Prepared(text + ending) == Some(text)
  {
    var all := text + ending;
    var z := all + "\0";
    assert z[..|all|] == all;
    CStringIs(z, |all|);
    StripPlain(all);
    TrimEnding(text, ending);
    FirstLineIs(text, |text|);
    assert text[..|text|] == text;
  }

  // Longer printable text is cut to its first 199 characters.
  lemma PreparedCut(text: string)
    requires |text| >= 200 && forall i :: 0 <= i < |text| ==> text[i] >= ' '
    ensures Prepared(text) == Some(text[..199])
  {
    var cut := text[..199];
    hide Strip, CString, TrimEnd, FirstLine;
    StringOf(cut);
    StripPlain(cut);
    TrimEnding(cut, "");
    assert cut + "" == cut;
    FirstLineIs(cut, 199);
    assert cut[..199] == cut;
  }

  predicate Colour(code: string) {
    forall i :: 0 <= i < |code| ==> code[i] != 'm' && code[i] != '\0'
  }

  // Text between a colour and a reset, as the logging macros write it.
  function Coloured(on: string, text: string, off: string, ending: string): string {
    ['\U{001b}', '['] + (on + "m" + (text + (['\U{001b}', '['] + (off + "m" + ending))))
  }

  // Of a coloured line of printable text, line breaks at its end, that is shorter than 200 characters in
  // all, the text alone is stored.
  lemma PreparedColoured(on: string, text: string, off: string, ending: string)
    requires Colour(on) && Colour(off) && text != ""
    requires forall i :: 0 <= i < |text| ==> text[i] >= ' '
    requires forall i :: 0 <= i < |ending| ==> ending[i] == '\n' || ending[i] == '\r'
    requires 2 + |on| + 1 + |text| + 2 + |off| + 1 + |ending| < 200
    ensures Prepared(Coloured(on, text, off, ending)) == Some(text)
  {
    hide Strip, CString, TrimEnd, FirstLine, Colour;
    var all := Coloured(on, text, off, ending);
    ColouredStrips(on, text, off, ending);
    NoNulIn(on, text, off, ending);
    StringOf(all);
    TrimEnding(text, ending);
    FirstLineIs(text, |text|);
    assert text[..|text|] == text;
  }

  lemma ColouredStrips(on: string, text: string, off: string, ending: string)
    requires Colour(on) && Colour(off)
    requires forall i :: 0 <= i < |text| ==> text[i] >= ' '
    requires forall i :: 0 <= i < |ending| ==> Break(ending[i])
    ensures Strip(Coloured(on, text, off, ending)) == text + ending
  {
    hide Strip, AfterM;
    var tail := text + ([ESC, '['] + (off + "m" + ending));
    ColourTakenOut("", on, tail);
    ColourTakenOut(text, off, ending);
    StripPlain(ending);
    assert "" + Coloured(on, text, off, ending) == Coloured(on, text, off, ending);
    assert "" + Strip(tail) == Strip(tail);
  }

  lemma NoNulIn(on: string, text: string, off: string, ending: string)
    requires Colour(on) && Colour(off)
    requires forall i :: 0 <= i < |text| ==> text[i] >= ' '
    requires forall i :: 0 <= i < |ending| ==> Break(ending[i])
    ensures '\0' !in Coloured(on, text, off, ending)
    ensures |Coloured(on, text, off, ending)| == 2 + |on| + 1 + |text| + 2 + |off| + 1 + |ending|
  {
  }

  // A buffer that holds text without a NUL holds it whole.
  lemma StringOf(s: string)
    requires '\0' !in s
    ensures CString(s + "\0") == s
  {
    var z := s + "\0";
    assert z[..|s|] == s;
    CStringIs(z, |s|);
  }

  lemma {:induction false} TrimEnding(text: string, ending: string)
    requires text != "" && !Break(text[|text| - 1])
    requires forall i :: 0 <= i < |ending| ==> Break(ending[i])
    ensures TrimEnd(text + ending) == text
    decreases |ending|
  {
    if ending == "" {
      assert text + ending == text;
    } else {
      assert (text + ending)[..|text + ending| - 1] == text + ending[..|ending| - 1];
      TrimEnding(text, ending[..|ending| - 1]);
    }
  }

  predicate OnlyBreaks(s: string) {
    forall i :: 0 <= i < |s| ==> Break(s[i])
  }

  lemma {:induction false} TrimEndEmpty(s: string)
    ensures TrimEnd(s) == "" <==> OnlyBreaks(s)
    decreases |s|
  {
    if s != "" && Break(s[|s| - 1]) {
      var t := s[..|s| - 1];
      TrimEndEmpty(t);
      assert OnlyBreaks(t) ==> OnlyBreaks(s) by {
        assert forall i :: 0 <= i < |t| ==> s[i] == t[i];
      }
    }
  }

  // An empty line is stored exactly for a text that shows a line break first and something else later.
  lemma EmptyLineIff(text: string)
    ensures Prepared(text) == Some("") <==>
      Shown(text) != "" && Shown(text)[0] == '\n' && !OnlyBreaks(Shown(text))
  {
    ShownEmpty();
    hide Shown, OnlyBreaks;
    var s := Shown(text);
    TrimEndEmpty(s);
    TrimEndShape(s);
    FirstLineEmpty(TrimEnd(s));
  }

  lemma ShownEmpty()
    ensures Shown("") == ""
  {
    assert "" + "\0" == "\0";
  }

  lemma FirstLineEmpty(s: string)
    ensures FirstLine(s) == "" <==> s == "" || s[0] == '\n'
  {
  }

  // A message that begins with a line break is stored as an empty line, unless nothing but line breaks
  // is left of it.
  lemma LeadingBreakLeavesEmpty(rest: string)
    ensures Prepared("\n" + rest) == if OnlyBreaks(Shown("\n" + rest)) then None else Some("")
  {
    var text := "\n" + rest;
    ShownFirst(text);
    hide Shown, OnlyBreaks;
    TrimEndEmpty(Shown(text));
    EmptyLineIff(text);
  }

  // A first character that begins no colour sequence stays the first.
  lemma ShownFirst(text: string)
    requires text != "" && text[0] != '\0' && text[0] != ESC
    ensures Shown(text) != "" && Shown(text)[0] == text[0]
  {
    var cut := if |text| >= LINE_CAP then text[..LINE_CAP - 1] else text;
    assert (cut + "\0")[0] == text[0];
  }
}
