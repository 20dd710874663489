/** Which answers a client of the legacy emulation gets to a request, when other tasks run during its
    transmission: the sink's sections in any interleaving, with every pending allocation numbered. */
module LegacyAnswers {
  import opened Bytes
  import opened HmuFrame
  import opened HmuDecoder
  import opened HmuStream
  import opened LegacySink
  import opened LegacyRuns
  import P = PendingAcks
  import C = CancelRuns

  // ----- Sections

  // The sink, and the allocations made so far.
  datatype World = World(sink: Sink, run: P.Run)

  ghost predicate WorldValid(w: World) {
    SinkValid(w.sink) && P.Conserved(w.run) && w.run.table == w.sink.pending
  }

  // A client's frame up to its transmission; what follows the transmission for allocation n; a frame
  // from the stick; a connection opened or closed in a slot.
  datatype Section =
    | Opening(slot: nat, frame: Frame, env: Env)
    | Settling(slot: nat, cnt: byte, n: nat, txOk: bool)
    | FromStick(stickFrame: Frame)
    | Reconnect(slot: nat, client: Client)

  ghost predicate Legal(w: World, sec: Section) {
    match sec
    case Opening(slot, _, _) => slot < MAX_CLIENTS
    case Settling(slot, _, n, _) => slot < MAX_CLIENTS && n < |w.run.home|
    case FromStick(_) => true
    case Reconnect(slot, _) => slot < MAX_CLIENTS
  }

  function TurnOf(id: Identity, w: World, sec: Section): Turn
    requires WorldValid(w) && Legal(w, sec)
  {
    match sec
    case Opening(slot, frame, env) => OnFrame(id, w.sink, slot, frame, env)
    case Settling(slot, cnt, n, txOk) => Settle(w.sink, slot, cnt, w.run.home[n], txOk)
    case FromStick(frame) => OnSourceFrame(w.sink, frame)
    case Reconnect(slot, client) => Turn(w.sink.(clients := w.sink.clients[slot := client]), [], Nothing)
  }

  predicate IsAck(f: Frame) {
    f.dst == 0x03 && f.payload != [] && f.payload[0] == 0x01
  }

  predicate WantsSending(f: Frame, env: Env) {
    f.dst == 0x01 && f.payload != [] && f.payload[0] == 0x02 && Translatable(f.payload, env)
  }

  // Whether the client that an ACK with this counter would reach is still connected.
  predicate ReachesActive(s: Sink, cnt: byte) {
    var k := P.FirstWaiting(s.pending, cnt, 0);
    k >= 0 && s.pending[k].client < |s.clients| && s.clients[s.pending[k].client].active
  }

  // What a section does to the pending table.
  function EventsOf(w: World, sec: Section): seq<P.Event>
    requires WorldValid(w) && Legal(w, sec)
  {
    match sec
    case Opening(slot, f, env) =>
      if WantsSending(f, env) then [P.AllocAt(f.cnt, slot, env.gcNow, env.allocNow)] else []
    case Settling(_, _, n, txOk) => if txOk then [] else [P.CancelSlot(w.run.home[n])]
    case FromStick(f) => if IsAck(f) then [P.AckFor(f.cnt, ReachesActive(w.sink, f.cnt))] else []
    case Reconnect(_, _) => []
  }

  lemma EventsLegal(w: World, sec: Section)
    requires WorldValid(w) && Legal(w, sec)
    ensures P.LegalEvents(EventsOf(w, sec)) && |w.run.born| == P.SLOTS && |EventsOf(w, sec)| <= 1
  {
  }

  ghost function StepWorld(id: Identity, w: World, sec: Section): World
    requires WorldValid(w) && Legal(w, sec)
  {
    EventsLegal(w, sec);
    World(TurnOf(id, w, sec).sink, C.RunAfter(w.run, EventsOf(w, sec)))
  }

  lemma RunNone(r: P.Run)
    requires |r.born| == P.SLOTS
    ensures C.RunAfter(r, []) == r
  {
  }

  lemma TurnSinkValid(id: Identity, w: World, sec: Section)
    requires WorldValid(w) && Legal(w, sec)
    ensures SinkValid(TurnOf(id, w, sec).sink)
  {
    hide Encode, SendTo, OsReply, AppReply, SendPayload, Broadcast, AckPayload, RecvPayload;
    hide P.Conserved;
    if sec.Opening? {
      OpeningSinkValid(id, w.sink, sec.slot, sec.frame, sec.env);
    }
  }

  lemma OpeningSinkValid(id: Identity, s: Sink, slot: nat, f: Frame, env: Env)
    requires SinkValid(s) && slot < MAX_CLIENTS
    ensures SinkValid(OnFrame(id, s, slot, f, env).sink)
  {
    hide Encode, SendTo, OsReply, AppReply, SendPayload;
  }

  // The sink's table moves as the numbered allocations do.
  lemma TurnTable(id: Identity, w: World, sec: Section)
    requires WorldValid(w) && Legal(w, sec)
    ensures StepWorld(id, w, sec).run.table == TurnOf(id, w, sec).sink.pending
  {
    hide Encode, SendTo, OsReply, AppReply, SendPayload, Broadcast, AckPayload, RecvPayload;
    EventsLegal(w, sec);
    RunNone(w.run);
    var es := EventsOf(w, sec);
    if es != [] {
      C.RunOne(w.run, es[0]);
      assert es == [es[0]];
      P.StepIsTableOperation(w.run, es[0]);
      hide P.Step, P.Conserved, C.RunAfter;
    }
  }

  lemma StepValid(id: Identity, w: World, sec: Section)
    requires WorldValid(w) && Legal(w, sec)
    ensures WorldValid(StepWorld(id, w, sec)) && P.EndingsKept(w.run, StepWorld(id, w, sec).run)
  {
    TurnSinkValid(id, w, sec);
    TurnTable(id, w, sec);
    EventsLegal(w, sec);
    hide TurnOf, EventsOf, P.Conserved, P.EndingsKept, C.RunAfter;
    C.RunAfterKeeps(w.run, EventsOf(w, sec));
  }

  // ----- Runs of sections

  ghost predicate IsRun(id: Identity, w: World, mid: seq<Section>)
    requires WorldValid(w)
    decreases |mid|
  {
    mid == [] ||
    (Legal(w, mid[0]) && (StepValid(id, w, mid[0]); IsRun(id, StepWorld(id, w, mid[0]), mid[1..])))
  }

  ghost function After(id: Identity, w: World, mid: seq<Section>): (q: World)
    requires WorldValid(w) && IsRun(id, w, mid)
    ensures WorldValid(q)
    decreases |mid|
  {
    if mid == [] then w
    else
      StepValid(id, w, mid[0]);
      After(id, StepWorld(id, w, mid[0]), mid[1..])
  }

  // What the run does to the pending table.
  ghost function EventsIn(id: Identity, w: World, mid: seq<Section>): (es: seq<P.Event>)
    requires WorldValid(w) && IsRun(id, w, mid)
    ensures P.LegalEvents(es)
    decreases |mid|
  {
    if mid == [] then []
    else
      StepValid(id, w, mid[0]);
      EventsLegal(w, mid[0]);
      EventsOf(w, mid[0]) + EventsIn(id, StepWorld(id, w, mid[0]), mid[1..])
  }

  lemma {:induction false} AfterIsRunAfter(id: Identity, w: World, mid: seq<Section>)
    requires WorldValid(w) && IsRun(id, w, mid)
    ensures |w.run.born| == P.SLOTS
    ensures After(id, w, mid).run == C.RunAfter(w.run, EventsIn(id, w, mid))
    decreases |mid|
  {
    if mid == [] {
    } else {
      var u := StepWorld(id, w, mid[0]);
      StepValid(id, w, mid[0]);
      EventsLegal(w, mid[0]);
      AfterIsRunAfter(id, u, mid[1..]);
      C.RunAfterAppend(w.run, EventsOf(w, mid[0]), EventsIn(id, u, mid[1..]));
    }
  }

  // ----- Answers

  // The bytes a section sends in answer to allocation n: the ACK that takes its entry, or the refusal
  // after its own transmission has failed.
  ghost function AnswersOf(id: Identity, w: World, sec: Section, n: nat): seq<Out>
    requires WorldValid(w) && Legal(w, sec)
  {
    match sec
    case FromStick(f) =>
      var k := P.FirstWaiting(w.sink.pending, f.cnt, 0);
      if IsAck(f) && k >= 0 && w.run.born[k] == n then TurnOf(id, w, sec).outs else []
    case Settling(_, _, m, _) => if m == n then TurnOf(id, w, sec).outs else []
    case Opening(_, _, _) => []
    case Reconnect(_, _) => []
  }

  ghost function AnswersIn(id: Identity, w: World, mid: seq<Section>, n: nat): seq<Out>
    requires WorldValid(w) && IsRun(id, w, mid)
    decreases |mid|
  {
    if mid == [] then []
    else
      StepValid(id, w, mid[0]);
      AnswersOf(id, w, mid[0], n) + AnswersIn(id, StepWorld(id, w, mid[0]), mid[1..], n)
  }

  predicate NoSettling(mid: seq<Section>, n: nat) {
    forall i :: 0 <= i < |mid| && mid[i].Settling? ==> mid[i].n != n
  }

  // The socket in this slot is open from the first section to behind the last.
  ghost predicate StaysOpen(id: Identity, w: World, mid: seq<Section>, slot: nat)
    requires WorldValid(w) && IsRun(id, w, mid)
    decreases |mid|
  {
    && slot < MAX_CLIENTS && w.sink.clients[slot].sockOpen
    && (mid != [] ==> (StepValid(id, w, mid[0]); StaysOpen(id, StepWorld(id, w, mid[0]), mid[1..], slot)))
  }

  lemma EndedSilentStep(id: Identity, w: World, sec: Section, n: nat)
    requires WorldValid(w) && Legal(w, sec) && n in w.run.ended && (sec.Settling? ==> sec.n != n)
    ensures AnswersOf(id, w, sec, n) == [] && n in StepWorld(id, w, sec).run.ended
  {
    StepValid(id, w, sec);
    hide TurnOf, StepWorld;
    if sec.FromStick? {
      var k := P.FirstWaiting(w.sink.pending, sec.stickFrame.cnt, 0);
      if k >= 0 {
        assert w.run.table[k].active;
        assert w.run.home[w.run.born[k]] == k;
      }
    }
  }

  // Bytes for this client that read as an ACK with this counter and status.
  ghost predicate ReadsAsAck(o: Out, slot: nat, cnt: byte, status: byte) {
    o.slot == slot && ReadsAs(o.bytes, Frame(0x01, cnt, [0x04, status]))
  }

  // The section routes an ACK to the entry in slot k.
  predicate Takes(w: World, sec: Section, k: nat) {
    && sec.FromStick? && IsAck(sec.stickFrame) && ReachesActive(w.sink, sec.stickFrame.cnt)
    && P.FirstWaiting(w.sink.pending, sec.stickFrame.cnt, 0) == k
  }

  // What the stick's first ACK that is routed to slot k says, if there is one.
  ghost function StickSays(id: Identity, w: World, mid: seq<Section>, k: nat): seq<byte>
    requires WorldValid(w) && IsRun(id, w, mid)
    decreases |mid|
  {
    if mid == [] then []
    else
      StepValid(id, w, mid[0]);
      if Takes(w, mid[0], k) then mid[0].stickFrame.payload else StickSays(id, StepWorld(id, w, mid[0]), mid[1..], k)
  }

  // One section: what it means for a live allocation.
  lemma AnswerStep(id: Identity, w: World, sec: Section, n: nat)
    requires WorldValid(w) && Legal(w, sec) && n < |w.run.home| && n !in w.run.ended
    requires sec.Settling? ==> sec.n != n
    requires var k := w.run.home[n]; k < P.SLOTS && w.sink.pending[k].client < MAX_CLIENTS
                                     && w.sink.clients[w.sink.pending[k].client].sockOpen
    ensures var k, es, u := w.run.home[n], EventsOf(w, sec), StepWorld(id, w, sec).run;
      var entry := w.sink.pending[k];
      && n < |u.home| && u.home[n] == k
      && (n !in u.ended <==> es == [] || C.Spares(w.sink.pending, es[0], k, entry.sentUs))
      && (n !in u.ended ==> u.table[k] == entry)
      && (es != [] && es[0].AckFor? && es[0].clientActive && P.FirstWaiting(w.sink.pending, es[0].cnt, 0) == k
          <==> AnswersOf(id, w, sec, n) != [])
      && (Takes(w, sec, k) <==> AnswersOf(id, w, sec, n) != [])
      && (Takes(w, sec, k) ==>
            |AnswersOf(id, w, sec, n)| == 1
            && ReadsAsAck(AnswersOf(id, w, sec, n)[0], entry.client, entry.cnt, ToldStatus(sec.stickFrame.payload)))
  {
    EventsLegal(w, sec);
    RunNone(w.run);
    LiveEntry(w.run, n);
    var es := EventsOf(w, sec);
    if es != [] {
      assert es == [es[0]];
      C.RunOne(w.run, es[0]);
      C.StepOwn(w.run, es[0], n);
    }
    if sec.FromStick? && IsAck(sec.stickFrame) {
      AckAnswer(id, w, sec.stickFrame, n);
    }
  }

  lemma LiveEntry(r: P.Run, n: nat)
    requires P.Conserved(r) && n < |r.home| && n !in r.ended
    ensures r.home[n] < P.SLOTS && r.table[r.home[n]].active && r.born[r.home[n]] == n
  {
  }

  lemma AckAnswer(id: Identity, w: World, f: Frame, n: nat)
    requires WorldValid(w) && IsAck(f) && n < |w.run.home| && n !in w.run.ended
    requires var k := w.run.home[n]; k < P.SLOTS && w.sink.pending[k].client < MAX_CLIENTS
                                     && w.sink.clients[w.sink.pending[k].client].sockOpen
    ensures var k := w.run.home[n]; var outs := AnswersOf(id, w, FromStick(f), n);
      && (outs != [] <==> ReachesActive(w.sink, f.cnt) && P.FirstWaiting(w.sink.pending, f.cnt, 0) == k)
      && (outs != [] ==>
            |outs| == 1
            && ReadsAsAck(outs[0], w.sink.pending[k].client, w.sink.pending[k].cnt, ToldStatus(f.payload)))
  {
    LiveEntry(w.run, n);
    var j := P.FirstWaiting(w.sink.pending, f.cnt, 0);
    if j >= 0 {
      assert w.run.table[j].active && w.run.home[w.run.born[j]] == j;
    }
    EncodedReadsAs(Frame(DST_APP, f.cnt, AckPayload(f.payload)));
    hide Encode, P.Conserved, ReadsAs;
  }

  // One section more in front.
  lemma FirstSection(id: Identity, w: World, mid: seq<Section>)
    requires WorldValid(w) && mid != [] && IsRun(id, w, mid)
    ensures Legal(w, mid[0]) && P.LegalEvents(EventsOf(w, mid[0])) && |EventsOf(w, mid[0])| <= 1
    ensures var u := StepWorld(id, w, mid[0]);
      && WorldValid(u) && IsRun(id, u, mid[1..])
      && EventsIn(id, w, mid) == EventsOf(w, mid[0]) + EventsIn(id, u, mid[1..])
      && After(id, w, mid) == After(id, u, mid[1..])
      && u.sink.pending == (if EventsOf(w, mid[0]) == [] then w.sink.pending
                            else C.TableStep(w.sink.pending, EventsOf(w, mid[0])[0]))
      && forall n :: AnswersIn(id, w, mid, n) == AnswersOf(id, w, mid[0], n) + AnswersIn(id, u, mid[1..], n)
  {
    StepValid(id, w, mid[0]);
    EventsLegal(w, mid[0]);
    RunNone(w.run);
    var es := EventsOf(w, mid[0]);
    if es != [] {
      assert es == [es[0]];
      C.RunOne(w.run, es[0]);
      C.SameTable(w.run, es[0]);
    }
    hide P.Conserved, SinkValid, TurnOf, EventsOf;
  }

  // An allocation that has ended is not answered any more, but by its own settling.
  lemma {:induction false} EndedSilent(id: Identity, w: World, mid: seq<Section>, n: nat)
    requires WorldValid(w) && IsRun(id, w, mid) && n in w.run.ended && NoSettling(mid, n)
    ensures AnswersIn(id, w, mid, n) == []
    decreases |mid|
  {
    if mid != [] {
      hide WorldValid, IsRun, TurnOf, EventsOf, StepWorld, AnswersOf;
      FirstSection(id, w, mid);
      EndedSilentStep(id, w, mid[0], n);
      assert NoSettling(mid[1..], n);
      EndedSilent(id, StepWorld(id, w, mid[0]), mid[1..], n);
    }
  }

  lemma AckedFront(p: P.Table, es: seq<P.Event>, rest: seq<P.Event>, k: nat, t: int)
    requires P.LegalEvents(es) && P.LegalEvents(rest) && |es| <= 1
    ensures P.LegalEvents(es + rest)
    ensures es == [] ==> C.Acked(p, es + rest, k, t) == C.Acked(p, rest, k, t)
                         && C.Spared(p, es + rest, k, t) == C.Spared(p, rest, k, t)
    ensures es != [] ==>
      && (C.Acked(p, es + rest, k, t) <==>
            || (es[0].AckFor? && es[0].clientActive && P.FirstWaiting(p, es[0].cnt, 0) == k)
            || (C.Spares(p, es[0], k, t) && C.Acked(C.TableStep(p, es[0]), rest, k, t)))
      && (C.Spared(p, es + rest, k, t) <==>
            C.Spares(p, es[0], k, t) && C.Spared(C.TableStep(p, es[0]), rest, k, t))
  {
    if es == [] {
      assert es + rest == rest;
    } else {
      assert (es + rest)[0] == es[0] && (es + rest)[1..] == rest;
    }
  }

  // What the first section of a run means for a live allocation.
  lemma AnswersFront(id: Identity, w: World, mid: seq<Section>, n: nat)
    requires WorldValid(w) && mid != [] && IsRun(id, w, mid) && n < |w.run.home| && n !in w.run.ended
    requires NoSettling(mid, n)
    requires w.run.home[n] < P.SLOTS && StaysOpen(id, w, mid, w.sink.pending[w.run.home[n]].client)
    ensures Legal(w, mid[0]) && WorldValid(StepWorld(id, w, mid[0])) && IsRun(id, StepWorld(id, w, mid[0]), mid[1..])
    ensures var k, u := w.run.home[n], StepWorld(id, w, mid[0]);
      var entry, first := w.sink.pending[k], AnswersOf(id, w, mid[0], n);
      var acked := C.Acked(w.sink.pending, EventsIn(id, w, mid), k, entry.sentUs);
      && NoSettling(mid[1..], n) && StaysOpen(id, u, mid[1..], entry.client)
      && AnswersIn(id, w, mid, n) == first + AnswersIn(id, u, mid[1..], n)
      && (first == [] ==> StickSays(id, w, mid, k) == StickSays(id, u, mid[1..], k))
      && (first != [] ==>
            |first| == 1 && ReadsAsAck(first[0], entry.client, entry.cnt, ToldStatus(StickSays(id, w, mid, k))))
      && (if n in u.run.ended then acked <==> first != []
          else
            && first == [] && n < |u.run.home| && u.run.home[n] == k && u.sink.pending[k] == entry
            && (acked <==> C.Acked(u.sink.pending, EventsIn(id, u, mid[1..]), k, entry.sentUs)))
  {
    hide WorldValid, IsRun, TurnOf, EventsOf, StepWorld, AnswersOf, StaysOpen, C.Acked, C.Spares, C.TableStep;
    hide ReadsAsAck, P.FirstWaiting, Takes, StickSays, ToldStatus, After, EventsIn, AnswersIn;
    var sec, rest, k := mid[0], mid[1..], w.run.home[n];
    OpenFront(id, w, mid, w.sink.pending[k].client);
    FirstSection(id, w, mid);
    var u := StepWorld(id, w, sec);
    AnswerStep(id, w, sec, n);
    TablesAgree(u);
    AckedFront(w.sink.pending, EventsOf(w, sec), EventsIn(id, u, rest), k, w.sink.pending[k].sentUs);
    SpareExcludesAck(w.sink.pending, EventsOf(w, sec), k, w.sink.pending[k].sentUs);
    SaysFront(id, w, mid, k);
    assert NoSettling(rest, n);
  }

  lemma OpenFront(id: Identity, w: World, mid: seq<Section>, slot: nat)
    requires WorldValid(w) && mid != [] && IsRun(id, w, mid) && StaysOpen(id, w, mid, slot)
    ensures slot < MAX_CLIENTS && |w.sink.clients| == MAX_CLIENTS && w.sink.clients[slot].sockOpen
    ensures Legal(w, mid[0]) && WorldValid(StepWorld(id, w, mid[0])) && IsRun(id, StepWorld(id, w, mid[0]), mid[1..])
    ensures StaysOpen(id, StepWorld(id, w, mid[0]), mid[1..], slot)
  {
    hide StepWorld, P.Conserved;
    StepValid(id, w, mid[0]);
  }

  lemma SaysFront(id: Identity, w: World, mid: seq<Section>, k: nat)
    requires WorldValid(w) && mid != [] && IsRun(id, w, mid)
    ensures Legal(w, mid[0]) && WorldValid(StepWorld(id, w, mid[0])) && IsRun(id, StepWorld(id, w, mid[0]), mid[1..])
    ensures StickSays(id, w, mid, k) ==
      if Takes(w, mid[0], k) then mid[0].stickFrame.payload else StickSays(id, StepWorld(id, w, mid[0]), mid[1..], k)
  {
    StepValid(id, w, mid[0]);
    hide StepWorld, Takes, SinkValid, P.Conserved;
  }

  // During any run of other sections a live allocation is answered once if an ACK reached its entry,
  // with what that ACK said, and not at all otherwise.
  lemma {:induction false} AnswersDuring(id: Identity, w: World, mid: seq<Section>, n: nat)
    requires WorldValid(w) && IsRun(id, w, mid) && n < |w.run.home| && n !in w.run.ended && NoSettling(mid, n)
    requires w.run.home[n] < P.SLOTS && StaysOpen(id, w, mid, w.sink.pending[w.run.home[n]].client)
    ensures var k := w.run.home[n]; var entry := w.sink.pending[k]; var answers := AnswersIn(id, w, mid, n);
      if C.Acked(w.sink.pending, EventsIn(id, w, mid), k, entry.sentUs)
      then |answers| == 1 && ReadsAsAck(answers[0], entry.client, entry.cnt, ToldStatus(StickSays(id, w, mid, k)))
      else answers == []
    decreases |mid|
  {
    if mid != [] {
      AnswersFront(id, w, mid, n);
      hide WorldValid, IsRun, TurnOf, EventsOf, StepWorld, AnswersOf, StaysOpen, C.Acked, ReadsAsAck, NoSettling;
      hide StickSays, ToldStatus;
      var u := StepWorld(id, w, mid[0]);
      if n in u.run.ended {
        EndedSilent(id, u, mid[1..], n);
      } else {
        AnswersDuring(id, u, mid[1..], n);
      }
    }
  }

  lemma TablesAgree(w: World)
    requires WorldValid(w)
    ensures w.run.table == w.sink.pending
  {
  }

  lemma SpareExcludesAck(p: P.Table, es: seq<P.Event>, k: nat, t: int)
    ensures es != [] && C.Spares(p, es[0], k, t) ==> !(es[0].AckFor? && P.FirstWaiting(p, es[0].cnt, 0) == k)
  {
  }

  // ----- The outcome of a request that is sent on

  // A client's frame that reserves an entry makes the next allocation.
  lemma OpeningAllocates(id: Identity, w: World, slot: nat, f: Frame, env: Env)
    requires WorldValid(w) && slot < MAX_CLIENTS && OnFrame(id, w.sink, slot, f, env).toBridge.Sending?
    ensures var u, n := StepWorld(id, w, Opening(slot, f, env)), |w.run.home|;
      var k := OnFrame(id, w.sink, slot, f, env).toBridge.entry;
      && WorldValid(u) && k < P.SLOTS && |u.run.home| == n + 1 && u.run.home[n] == k && n !in u.run.ended
      && u.sink.pending[k] == P.Entry(true, f.cnt, slot, env.allocNow)
  {
    var sec := Opening(slot, f, env);
    HandedWants(id, w.sink, slot, f, env);
    StepValid(id, w, sec);
    var alloc := P.AllocAt(f.cnt, slot, env.gcNow, env.allocNow);
    assert EventsOf(w, sec) == [alloc];
    EventsLegal(w, sec);
    C.RunOne(w.run, alloc);
    hide P.Conserved, OnFrame, P.Step, C.RunAfter;
    C.Given(w.run, alloc);
    TablesAgree(StepWorld(id, w, sec));
  }

  lemma HandedWants(id: Identity, s: Sink, slot: nat, f: Frame, env: Env)
    requires slot < |s.clients| && OnFrame(id, s, slot, f, env).toBridge.Sending?
    ensures WantsSending(f, env)
    ensures OnFrame(id, s, slot, f, env).outs == []
    ensures OnFrame(id, s, slot, f, env).toBridge.entry
         == P.Alloc(s.pending, f.cnt, slot, env.gcNow, env.allocNow).1 >= 0
    ensures OnFrame(id, s, slot, f, env).toBridge.wire == Encode(Frame(DST_LLMAC, f.cnt, SendPayload(f.payload)))
  {
    hide Encode, SendPayload;
  }

  lemma {:induction false} OpenAtEnd(id: Identity, w: World, mid: seq<Section>, slot: nat)
    requires WorldValid(w) && IsRun(id, w, mid) && StaysOpen(id, w, mid, slot)
    ensures slot < MAX_CLIENTS && After(id, w, mid).sink.clients[slot].sockOpen
    decreases |mid|
  {
    if mid != [] {
      StepValid(id, w, mid[0]);
      hide StepWorld;
      OpenAtEnd(id, StepWorld(id, w, mid[0]), mid[1..], slot);
    }
  }

  // Settling allocation n: the refusal is sent exactly if the transmission failed, and the allocation
  // lives on exactly if it lived and the transmission succeeded.
  lemma SettlingOutcome(id: Identity, w: World, slot: nat, cnt: byte, n: nat, txOk: bool)
    requires WorldValid(w) && slot < MAX_CLIENTS && n < |w.run.home| && w.sink.clients[slot].sockOpen
    ensures var sec := Settling(slot, cnt, n, txOk);
      && AnswersOf(id, w, sec, n) ==
           (if txOk then [] else [ToClient(slot, Encode(Frame(DST_APP, cnt, [ACK, ACK_EUNKNOWN])))])
      && (n !in StepWorld(id, w, sec).run.ended <==> txOk && n !in w.run.ended)
  {
    var sec := Settling(slot, cnt, n, txOk);
    EventsLegal(w, sec);
    RunNone(w.run);
    hide Encode;
    if !txOk {
      var k := w.run.home[n];
      assert EventsOf(w, sec) == [P.CancelSlot(k)];
      C.RunOne(w.run, P.CancelSlot(k));
      P.StepConserved(w.run, P.CancelSlot(k));
      if n !in w.run.ended {
        C.StepOwn(w.run, P.CancelSlot(k), n);
      }
    }
  }

  // Everything the client gets for a request that is sent on, from its opening to its settling.
  ghost function AnswersTo(id: Identity, w: World, mid: seq<Section>, settling: Section, n: nat): seq<Out>
    requires WorldValid(w) && IsRun(id, w, mid) && Legal(After(id, w, mid), settling)
  {
    AnswersIn(id, w, mid, n) + AnswersOf(id, After(id, w, mid), settling, n)
  }

  // What the client gets for a live allocation, and whether its entry is left waiting: what the stick
  // said if it was acknowledged, and behind that a refusal if the transmission failed.
  ghost predicate Outcome(id: Identity, u: World, mid: seq<Section>, n: nat, slot: nat, cnt: byte, txOk: bool,
                          acked: bool, spared: bool)
    requires WorldValid(u) && IsRun(id, u, mid) && slot < MAX_CLIENTS && n < |After(id, u, mid).run.home|
  {
    var settling := Settling(slot, cnt, n, txOk);
    var answers := AnswersTo(id, u, mid, settling, n);
    && |answers| == (if acked then 1 else 0) + (if txOk then 0 else 1)
    && (acked ==> ReadsAsAck(answers[0], slot, cnt, ToldStatus(StickSays(id, u, mid, After(id, u, mid).run.home[n]))))
    && (!txOk ==> ReadsAsAck(answers[|answers| - 1], slot, cnt, 0x84))
    && (n !in StepWorld(id, After(id, u, mid), settling).run.ended <==> txOk && spared)
  }

  lemma LiveOutcome(id: Identity, u: World, mid: seq<Section>, n: nat, txOk: bool)
    requires WorldValid(u) && IsRun(id, u, mid) && n < |u.run.home| && n !in u.run.ended && NoSettling(mid, n)
    requires u.run.home[n] < P.SLOTS && StaysOpen(id, u, mid, u.sink.pending[u.run.home[n]].client)
    ensures var k, p, es := u.run.home[n], u.sink.pending, EventsIn(id, u, mid);
      && n < |After(id, u, mid).run.home| && p[k].client < MAX_CLIENTS
      && Outcome(id, u, mid, n, p[k].client, p[k].cnt, txOk,
                 C.Acked(p, es, k, p[k].sentUs), C.Spared(p, es, k, p[k].sentUs))
  {
    hide StepWorld, TurnOf, EventsOf, AnswersOf, IsRun, StaysOpen, ReadsAsAck, Encode, SinkValid, P.Conserved;
    hide C.Acked, C.Spared, NoSettling, C.RunAfter, StickSays, ToldStatus;
    var entry := u.sink.pending[u.run.home[n]];
    var last := After(id, u, mid);
    OpenAtEnd(id, u, mid, entry.client);
    LivesIff(id, u, mid, n);
    AnswersDuring(id, u, mid, n);
    SettlingOutcome(id, last, entry.client, entry.cnt, n, txOk);
    RefusalReads(entry.client, entry.cnt);
    var first, second := AnswersIn(id, u, mid, n), AnswersOf(id, last, Settling(entry.client, entry.cnt, n, txOk), n);
    hide After, AnswersIn;
    assert |first + second| == |first| + |second|;
  }

  lemma LivesIff(id: Identity, u: World, mid: seq<Section>, n: nat)
    requires WorldValid(u) && IsRun(id, u, mid) && n < |u.run.home| && n !in u.run.ended
    requires u.run.home[n] < P.SLOTS
    ensures var k, p := u.run.home[n], u.sink.pending; var last := After(id, u, mid).run;
      n < |last.home| && last.home[n] == k && (n !in last.ended <==> C.Spared(p, EventsIn(id, u, mid), k, p[k].sentUs))
  {
    AfterIsRunAfter(id, u, mid);
    hide P.Conserved, IsRun, After, EventsIn, C.RunAfter, C.Spared;
    C.OwnIff(u.run, EventsIn(id, u, mid), n);
  }

  // The world while a client's frame is being transmitted.
  ghost function Opened(id: Identity, w: World, slot: nat, f: Frame, env: Env): (u: World)
    requires WorldValid(w) && slot < MAX_CLIENTS
    ensures WorldValid(u)
  {
    StepValid(id, w, Opening(slot, f, env));
    StepWorld(id, w, Opening(slot, f, env))
  }

  // A request that reserves slot k at time t is sent on; any sections of other tasks run during its
  // transmission; then it is settled. The client gets a readable ACK exactly if one was routed to
  // slot k while its entry was spared, and a readable refusal exactly if the transmission failed. The
  // entry is left waiting exactly if the transmission succeeded and all sections spared slot k.
  lemma RequestOutcome(id: Identity, w: World, slot: nat, f: Frame, env: Env, mid: seq<Section>, txOk: bool)
    requires WorldValid(w) && slot < MAX_CLIENTS && OnFrame(id, w.sink, slot, f, env).toBridge.Sending?
    requires IsRun(id, Opened(id, w, slot, f, env), mid) && NoSettling(mid, |w.run.home|)
    requires StaysOpen(id, Opened(id, w, slot, f, env), mid, slot)
    ensures var k, n := OnFrame(id, w.sink, slot, f, env).toBridge.entry, |w.run.home|;
      var u := Opened(id, w, slot, f, env);
      var p, es, t := u.sink.pending, EventsIn(id, u, mid), env.allocNow;
      && n < |After(id, u, mid).run.home|
      && Outcome(id, u, mid, n, slot, f.cnt, txOk, C.Acked(p, es, k, t), C.Spared(p, es, k, t))
  {
    OpeningAllocates(id, w, slot, f, env);
    hide OnFrame, StepWorld, IsRun, StaysOpen, Outcome, After, EventsIn, C.Acked, C.Spared;
    LiveOutcome(id, Opened(id, w, slot, f, env), mid, |w.run.home|, txOk);
  }

  // So for one request the client is answered twice exactly if an ACK reached its entry and the
  // transmission failed all the same, and not at all, with nothing left waiting, exactly if the
  // transmission succeeded but the entry was lost without an ACK. Otherwise it is answered once or
  // left waiting, and not both.
  lemma AnsweredOnceIff(id: Identity, w: World, slot: nat, f: Frame, env: Env, mid: seq<Section>, txOk: bool)
    requires WorldValid(w) && slot < MAX_CLIENTS && OnFrame(id, w.sink, slot, f, env).toBridge.Sending?
    requires IsRun(id, Opened(id, w, slot, f, env), mid) && NoSettling(mid, |w.run.home|)
    requires StaysOpen(id, Opened(id, w, slot, f, env), mid, slot)
    ensures var k, n := OnFrame(id, w.sink, slot, f, env).toBridge.entry, |w.run.home|;
      var u, settling := Opened(id, w, slot, f, env), Settling(slot, f.cnt, n, txOk);
      var acked := C.Acked(u.sink.pending, EventsIn(id, u, mid), k, env.allocNow);
      var spared := C.Spared(u.sink.pending, EventsIn(id, u, mid), k, env.allocNow);
      && n < |After(id, u, mid).run.home|
      && var answers := |AnswersTo(id, u, mid, settling, n)|;
         var waiting := n !in StepWorld(id, After(id, u, mid), settling).run.ended;
         && (answers == 2 <==> acked && !txOk)
         && (answers == 0 && !waiting <==> txOk && !spared && !acked)
         && (answers + (if waiting then 1 else 0) == 1 <==> if txOk then spared || acked else !acked)
  {
    RequestOutcome(id, w, slot, f, env, mid, txOk);
    var k, u := OnFrame(id, w.sink, slot, f, env).toBridge.entry, Opened(id, w, slot, f, env);
    var es := EventsIn(id, u, mid);
    hide OnFrame, StepWorld, IsRun, StaysOpen, After, EventsIn, C.Spared, AnswersTo;
    if C.Acked(u.sink.pending, es, k, env.allocNow) {
      C.AckedNotSpared(u.sink.pending, es, k, env.allocNow);
    }
    hide WorldValid, ReadsAsAck;
  }

  lemma RefusalReads(slot: nat, cnt: byte)
    ensures ReadsAsAck(ToClient(slot, Encode(Frame(DST_APP, cnt, [ACK, ACK_EUNKNOWN]))), slot, cnt, 0x84)
  {
    EncodedReadsAs(Frame(DST_APP, cnt, [ACK, ACK_EUNKNOWN]));
    hide Encode, ReadsAs;
  }

  // ----- Requests of every kind

  // The bytes a host expects from the module, by layer and command. On the OS layer (0): the name of the
  // application for 00, the firmware version for 02, the serial number for 0b, no credits used for 08,
  // and a refusal to update for 05 and 07. On the APP layer (1): the module address for 01 and 10, no
  // controller type for 12, and a refusal of an APP_SEND (02) that was not sent on. Anything else on
  // these two layers is confirmed, and other layers are refused.
  function Expected(id: Identity, hmid: seq<byte>, f: Frame): seq<byte>
    requires f.payload != []
  {
    var cmd := f.payload[0];
    if f.dst == 0x00 && cmd == 0x00 then [0x00, 0x43, 0x6f, 0x5f, 0x43, 0x50, 0x55, 0x5f, 0x41, 0x70, 0x70]
    else if f.dst == 0x00 && cmd == 0x02 then [0x04, 0x02, 0x01, 0x00, 0x03, id.fwMajor, id.fwMinor, id.fwPatch]
    else if f.dst == 0x00 && cmd == 0x0b then [0x04, 0x02] + id.serial
    else if f.dst == 0x00 && cmd == 0x08 then [0x04, 0x02, 0x00]
    else if f.dst == 0x00 && (cmd == 0x05 || cmd == 0x07) then [0x04, 0x84]
    else if f.dst == 0x01 && (cmd == 0x01 || cmd == 0x10) then [0x04, 0x07, 0x01, 0x01] + hmid
    else if f.dst == 0x01 && (cmd == 0x02 || cmd == 0x12) then [0x04, 0x84]
    else if f.dst <= 0x01 then [0x04, 0x01]
    else [0x04, 0x84]
  }

  // One reply, with the expected bytes under the request's destination and counter, readable in any state.
  ghost predicate RepliedOnce(id: Identity, turn: Turn, slot: nat, f: Frame)
    requires f.payload != []
  {
    && |turn.outs| == 1 && turn.outs[0].slot == slot
    && ReadsAs(turn.outs[0].bytes, Frame(f.dst, f.cnt, Expected(id, turn.sink.hmid, f)))
  }

  lemma RepliesOnce(id: Identity, turn: Turn, slot: nat, f: Frame, r: seq<byte>)
    requires f.payload != [] && r == Expected(id, turn.sink.hmid, f) && |r| <= MAX_PAYLOAD
    requires turn.outs == [ToClient(slot, Encode(Frame(f.dst, f.cnt, r)))]
    ensures RepliedOnce(id, turn, slot, f)
  {
    EncodedReadsAs(Frame(f.dst, f.cnt, r));
  }

  // The module's own answer to a request that is not sent on.
  function ReplyTo(id: Identity, hmid: seq<byte>, f: Frame): seq<byte>
    requires f.payload != []
  {
    var cmd := f.payload[0];
    if f.dst == DST_OS then OsReply(id, cmd)
    else if f.dst == DST_APP && cmd != APP_SEND then AppReply(hmid, cmd)
    else [ACK, ACK_EUNKNOWN]
  }

  lemma ReplyExpected(id: Identity, hmid: seq<byte>, f: Frame)
    requires f.payload != [] && |id.serial| == 10 && |hmid| == 3
    ensures ReplyTo(id, hmid, f) == Expected(id, hmid, f) && |ReplyTo(id, hmid, f)| <= MAX_PAYLOAD
  {
    assert [0x00] + APP_NAME == [0x00, 0x43, 0x6f, 0x5f, 0x43, 0x50, 0x55, 0x5f, 0x41, 0x70, 0x70];
  }

  // A frame with a payload is either replied to at once, with the expected bytes, or sent on without a
  // reply; an empty payload is ignored.
  lemma RepliedOrSentOn(id: Identity, s: Sink, slot: nat, f: Frame, env: Env)
    requires SinkValid(s) && IdentityValid(id) && slot < MAX_CLIENTS && s.clients[slot].sockOpen
    ensures var turn := OnFrame(id, s, slot, f, env);
      if f.payload == [] then turn == Turn(s, [], Nothing)
      else if turn.toBridge.Sending? then turn.outs == []
      else RepliedOnce(id, turn, slot, f)
  {
    hide Expected, OsReply, AppReply, Encode, ReadsAs, RepliedOnce;
    if f.payload != [] {
      var turn := OnFrame(id, s, slot, f, env);
      if turn.toBridge.Nothing? {
        ReplyExpected(id, turn.sink.hmid, f);
        RepliesOnce(id, turn, slot, f, ReplyTo(id, turn.sink.hmid, f));
      }
    }
  }

  // ----- A whole connection

  // How one frame is handled: in which world, with which readings, what runs during its transmission
  // if it has one, and how that ends.
  datatype Handling = Handling(before: World, env: Env, mid: seq<Section>, txOk: bool)

  // The connection in this slot itself does nothing in these sections.
  predicate Others(mid: seq<Section>, slot: nat) {
    forall i :: 0 <= i < |mid| ==>
      && (mid[i].Opening? ==> mid[i].slot != slot)
      && (mid[i].Reconnect? ==> mid[i].slot != slot)
  }

  ghost predicate Handles(id: Identity, slot: nat, f: Frame, h: Handling) {
    && slot < MAX_CLIENTS && WorldValid(h.before) && h.before.sink.clients[slot].sockOpen
    && (var opening := Opening(slot, f, h.env);
        StepValid(id, h.before, opening);
        var u := StepWorld(id, h.before, opening);
        && IsRun(id, u, h.mid) && StaysOpen(id, u, h.mid, slot)
        && NoSettling(h.mid, |h.before.run.home|) && Others(h.mid, slot))
  }

  // The world after the frame has been handled.
  ghost function Done(id: Identity, slot: nat, f: Frame, h: Handling): World
    requires Handles(id, slot, f, h)
  {
    var opening := Opening(slot, f, h.env);
    StepValid(id, h.before, opening);
    var u := StepWorld(id, h.before, opening);
    if OnFrame(id, h.before.sink, slot, f, h.env).toBridge.Nothing? then u
    else
      OpeningAllocates(id, h.before, slot, f, h.env);
      LivesIff(id, u, h.mid, |h.before.run.home|);
      StepWorld(id, After(id, u, h.mid), Settling(slot, f.cnt, |h.before.run.home|, h.txOk))
  }

  function HostIn(s: Sink, slot: nat): Host {
    if slot < |s.clients| then s.clients[slot].host else AwaitingProbe
  }

  // This client's host mode after the frame has been handled.
  ghost function HostAfter(id: Identity, slot: nat, f: Frame, h: Handling): Host
    requires Handles(id, slot, f, h)
  {
    HostIn(Done(id, slot, f, h).sink, slot)
  }

  ghost predicate ServedAt(id: Identity, slot: nat, frames: seq<Frame>, hs: seq<Handling>, i: nat)
    requires i < |frames| == |hs|
  {
    && Handles(id, slot, frames[i], hs[i])
    && (i > 0 ==> Handles(id, slot, frames[i - 1], hs[i - 1]))
    && HostIn(hs[i].before.sink, slot)
       == if i == 0 then AwaitingProbe else HostAfter(id, slot, frames[i - 1], hs[i - 1])
  }

  // The client in a slot is served frame by frame. Between two frames other tasks may change anything
  // but this client's host mode and socket.
  ghost predicate Served(id: Identity, slot: nat, frames: seq<Frame>, hs: seq<Handling>) {
    && IdentityValid(id) && |frames| == |hs|
    && (forall i :: 0 <= i < |frames| ==> ServedAt(id, slot, frames, hs, i))
  }

  // The host mode that the first OS_GET_APP or OS_CHANGE_APP on the OS layer decides.
  function FirstProbe(frames: seq<Frame>): Host {
    if frames == [] then AwaitingProbe
    else if frames[0].dst == 0x00 && frames[0].payload != [] && frames[0].payload[0] == 0x00 then Fhem
    else if frames[0].dst == 0x00 && frames[0].payload != [] && frames[0].payload[0] == 0x03 then Homegear
    else FirstProbe(frames[1..])
  }

  lemma {:induction false} FirstProbeSnoc(frames: seq<Frame>, f: Frame)
    ensures FirstProbe(frames + [f]) ==
      if FirstProbe(frames) != AwaitingProbe then FirstProbe(frames) else FirstProbe([f])
  {
    if frames == [] {
      assert frames + [f] == [f];
    } else {
      assert (frames + [f])[1..] == frames[1..] + [f];
      FirstProbeSnoc(frames[1..], f);
    }
  }

  lemma TurnHost(id: Identity, s: Sink, slot: nat, f: Frame, env: Env)
    requires slot < |s.clients|
    ensures HostIn(OnFrame(id, s, slot, f, env).sink, slot) ==
      if f.payload == [] then s.clients[slot].host
      else Detect(s.clients[slot].host, f.dst, f.payload[0])
  {
  }

  lemma OneProbe(f: Frame)
    ensures FirstProbe([f]) ==
      if f.payload == [] then AwaitingProbe else Detect(AwaitingProbe, f.dst, f.payload[0])
  {
    assert [f][1..] == [];
  }

  lemma AfterNone(id: Identity, w: World)
    requires WorldValid(w)
    ensures IsRun(id, w, []) && After(id, w, []) == w
  {
  }

  // Sections of others leave the host mode alone.
  lemma {:induction false} HostKept(id: Identity, w: World, mid: seq<Section>, slot: nat)
    requires WorldValid(w) && IsRun(id, w, mid) && Others(mid, slot)
    ensures HostIn(After(id, w, mid).sink, slot) == HostIn(w.sink, slot)
    decreases |mid|
  {
    hide WorldValid, IsRun, TurnOf, EventsOf, StepWorld, HostIn, After;
    AfterNone(id, w);
    if mid != [] {
      FirstSection(id, w, mid);
      HostKeptStep(id, w, mid[0], slot);
      assert Others(mid[1..], slot);
      hide Others;
      HostKept(id, StepWorld(id, w, mid[0]), mid[1..], slot);
    }
  }

  lemma HostKeptStep(id: Identity, w: World, sec: Section, slot: nat)
    requires WorldValid(w) && Legal(w, sec)
    requires (sec.Opening? || sec.Reconnect?) ==> sec.slot != slot
    ensures HostIn(StepWorld(id, w, sec).sink, slot) == HostIn(w.sink, slot)
  {
    hide P.Conserved, EventsOf, Encode, SendTo, AppSend, Broadcast;
  }

  lemma DoneHost(id: Identity, slot: nat, f: Frame, h: Handling)
    requires Handles(id, slot, f, h)
    ensures HostAfter(id, slot, f, h) ==
      if f.payload == [] then HostIn(h.before.sink, slot)
      else Detect(HostIn(h.before.sink, slot), f.dst, f.payload[0])
  {
    var opening := Opening(slot, f, h.env);
    TurnHost(id, h.before.sink, slot, f, h.env);
    OpeningHost(id, h.before, slot, f, h.env);
    hide OnFrame, TurnOf, EventsOf, P.Conserved, StaysOpen, IsRun, HostIn, SinkValid;
    StepValid(id, h.before, opening);
    var u := StepWorld(id, h.before, opening);
    hide StepWorld;
    HostKept(id, u, h.mid, slot);
    if OnFrame(id, h.before.sink, slot, f, h.env).toBridge.Sending? {
      OpeningAllocates(id, h.before, slot, f, h.env);
      LivesIff(id, u, h.mid, |h.before.run.home|);
      HostKeptStep(id, After(id, u, h.mid), Settling(slot, f.cnt, |h.before.run.home|, h.txOk), slot);
    }
  }

  lemma OpeningHost(id: Identity, w: World, slot: nat, f: Frame, env: Env)
    requires WorldValid(w) && slot < MAX_CLIENTS
    ensures HostIn(StepWorld(id, w, Opening(slot, f, env)).sink, slot)
         == HostIn(OnFrame(id, w.sink, slot, f, env).sink, slot)
    ensures HostIn(w.sink, slot) == w.sink.clients[slot].host
  {
    hide OnFrame, EventsOf, P.Conserved;
  }

  function NextHost(host: Host, f: Frame): Host {
    if f.payload == [] then host else Detect(host, f.dst, f.payload[0])
  }

  // Host modes that follow each other frame by frame, from the waiting mode on, are what the first
  // probe so far says.
  lemma {:induction false} ProbeChain(frames: seq<Frame>, hosts: seq<Host>, n: nat)
    requires n < |frames| == |hosts|
    requires forall i {:trigger hosts[i]} :: 0 <= i < |hosts| ==>
      hosts[i] == NextHost(if i == 0 then AwaitingProbe else hosts[i - 1], frames[i])
    ensures hosts[n] == FirstProbe(frames[..n + 1])
    decreases n
  {
    hide FirstProbe, Detect;
    FirstProbeSnoc(frames[..n], frames[n]);
    TakeOneMore(frames, n);
    OneProbe(frames[n]);
    DetectOnce(if n == 0 then AwaitingProbe else hosts[n - 1], frames[n]);
    if n == 0 {
      NoProbe();
    } else {
      ProbeChain(frames, hosts, n - 1);
    }
  }

  lemma DetectOnce(host: Host, f: Frame)
    ensures host != AwaitingProbe ==> NextHost(host, f) == host
  {
  }

  // After each frame the host mode is what the first probe so far says; so once a client has left
  // the waiting mode it never returns to it during the connection.
  lemma HostIsFirstProbe(id: Identity, slot: nat, frames: seq<Frame>, hs: seq<Handling>, n: nat)
    requires Served(id, slot, frames, hs) && n < |frames|
    ensures Handles(id, slot, frames[n], hs[n])
    ensures HostAfter(id, slot, frames[n], hs[n]) == FirstProbe(frames[..n + 1])
    ensures n > 0 ==>
      && Handles(id, slot, frames[n - 1], hs[n - 1])
      && (HostAfter(id, slot, frames[n - 1], hs[n - 1]) != AwaitingProbe ==>
            HostAfter(id, slot, frames[n], hs[n]) == HostAfter(id, slot, frames[n - 1], hs[n - 1]))
  {
    hide Handles, Done, HostAfter, FirstProbe, HostIn;
    forall i | 0 <= i < |frames| ensures Handles(id, slot, frames[i], hs[i]) {
      assert ServedAt(id, slot, frames, hs, i);
    }
    var hosts := seq(|frames|, i requires 0 <= i < |frames| => HostAfter(id, slot, frames[i], hs[i]));
    forall i | 0 <= i < |hosts|
      ensures hosts[i] == NextHost(if i == 0 then AwaitingProbe else hosts[i - 1], frames[i])
    {
      assert ServedAt(id, slot, frames, hs, i);
      DoneHost(id, slot, frames[i], hs[i]);
    }
    hide Served, NextHost;
    ProbeChain(frames, hosts, n);
    if n > 0 {
      assert hosts[n - 1] == HostAfter(id, slot, frames[n - 1], hs[n - 1]);
      assert hosts[n] == NextHost(hosts[n - 1], frames[n]);
      DetectOnce(hosts[n - 1], frames[n]);
    }
  }

  lemma TakeOneMore<T>(xs: seq<T>, n: nat)
    requires n < |xs|
    ensures xs[..n + 1] == xs[..n] + [xs[n]] && xs[..0] == []
  {
  }

  lemma NoProbe()
    ensures FirstProbe([]) == AwaitingProbe
  {
  }

  // Over any client byte stream, cut in any way, and any sections of other tasks: a frame of the
  // batch reading is ignored if it is empty, replied to once at once, or sent on with the outcome that
  // the ACK, the spared entry and the transmission decide.
  lemma ConnectionAnswered(id: Identity, slot: nat, chunks: seq<seq<byte>>, hs: seq<Handling>, i: nat)
    requires Served(id, slot, ConsumeChunks(INITIAL, chunks).1, hs) && i < |hs|
    ensures |hs| == |Batch(Flatten(chunks))|
    ensures var f, h := Batch(Flatten(chunks))[i], hs[i];
      && Handles(id, slot, f, h)
      && var turn := OnFrame(id, h.before.sink, slot, f, h.env);
      if f.payload == [] then turn == Turn(h.before.sink, [], Nothing)
      else if turn.toBridge.Nothing? then RepliedOnce(id, turn, slot, f)
      else turn.outs == [] && SentOnOutcome(id, slot, f, h)
  {
    DecoderRefinesBatchInPieces(chunks);
    var f, h := Batch(Flatten(chunks))[i], hs[i];
    assert ServedAt(id, slot, ConsumeChunks(INITIAL, chunks).1, hs, i);
    RepliedOrSentOn(id, h.before.sink, slot, f, h.env);
    if f.payload != [] && OnFrame(id, h.before.sink, slot, f, h.env).toBridge.Sending? {
      StepValid(id, h.before, Opening(slot, f, h.env));
      hide StepWorld, IsRun, StaysOpen, Served, ServedAt, Batch, ConsumeChunks;
      RequestOutcome(id, h.before, slot, f, h.env, h.mid, h.txOk);
    }
  }

  // The outcome of a frame that is sent on, as RequestOutcome and AnsweredOnceIff describe it.
  ghost predicate SentOnOutcome(id: Identity, slot: nat, f: Frame, h: Handling)
    requires Handles(id, slot, f, h)
  {
    var opening := Opening(slot, f, h.env);
    StepValid(id, h.before, opening);
    var u, n, t := StepWorld(id, h.before, opening), |h.before.run.home|, h.env.allocNow;
    var turn := OnFrame(id, h.before.sink, slot, f, h.env);
    && turn.toBridge.Sending? && n < |After(id, u, h.mid).run.home|
    && var k, p, es := turn.toBridge.entry, u.sink.pending, EventsIn(id, u, h.mid);
       Outcome(id, u, h.mid, n, slot, f.cnt, h.txOk, C.Acked(p, es, k, t), C.Spared(p, es, k, t))
  }

  // ----- Two answers, and none

  lemma OneSection(id: Identity, w: World, sec: Section, n: nat)
    requires WorldValid(w) && Legal(w, sec)
    ensures WorldValid(StepWorld(id, w, sec)) && IsRun(id, w, [sec])
    ensures After(id, w, [sec]) == StepWorld(id, w, sec) && EventsIn(id, w, [sec]) == EventsOf(w, sec)
    ensures AnswersIn(id, w, [sec], n) == AnswersOf(id, w, sec, n)
  {
    StepValid(id, w, sec);
    hide StepWorld, WorldValid, EventsOf, AnswersOf, Legal;
    assert [sec][1..] == [];
    assert EventsOf(w, sec) + [] == EventsOf(w, sec) && AnswersOf(id, w, sec, n) + [] == AnswersOf(id, w, sec, n);
  }

  // The state while a request is transmitted that found no entry waiting: its own entry alone.
  lemma OnlyEntry(id: Identity, w: World, slot: nat, f: Frame, env: Env)
    requires WorldValid(w) && slot < MAX_CLIENTS && OnFrame(id, w.sink, slot, f, env).toBridge.Sending?
    requires forall k :: 0 <= k < P.SLOTS ==> !w.sink.pending[k].active
    ensures var u, k := StepWorld(id, w, Opening(slot, f, env)), OnFrame(id, w.sink, slot, f, env).toBridge.entry;
      && P.FirstWaiting(u.sink.pending, f.cnt, 0) == k
      && u.sink.clients[slot].active == w.sink.clients[slot].active
      && u.sink.clients[slot].sockOpen == w.sink.clients[slot].sockOpen
  {
    HandedWants(id, w.sink, slot, f, env);
    OpeningAllocates(id, w, slot, f, env);
    var c := P.Collect(w.sink.pending, env.gcNow, P.SLOTS);
    var q, k := OnFrame(id, w.sink, slot, f, env).sink.pending, OnFrame(id, w.sink, slot, f, env).toBridge.entry;
    hide Encode, SendPayload, P.Conserved;
    assert q == c[k := P.Entry(true, f.cnt, slot, env.allocNow)];
    assert P.WaitsFor(q[k], f.cnt) && forall j :: 0 <= j < P.SLOTS && j != k ==> !q[j].active;
  }

  // The stick's ACK arrives during the transmission, which then fails: the client reads an ACK and a
  // refusal for one request.
  lemma AnsweredTwice(id: Identity, w: World, slot: nat, f: Frame, env: Env)
    requires WorldValid(w) && slot < MAX_CLIENTS && w.sink.clients[slot].active && w.sink.clients[slot].sockOpen
    requires OnFrame(id, w.sink, slot, f, env).toBridge.Sending?
    requires forall k :: 0 <= k < P.SLOTS ==> !w.sink.pending[k].active
    ensures var u, n := Opened(id, w, slot, f, env), |w.run.home|;
      var mid := [FromStick(Frame(0x03, f.cnt, [0x01, 0x01]))];
      && WorldValid(u) && IsRun(id, u, mid) && n < |After(id, u, mid).run.home|
      && AnswersTo(id, u, mid, Settling(slot, f.cnt, n, false), n)
         == [ToClient(slot, Encode(Frame(0x01, f.cnt, [0x04, 0x01]))),
             ToClient(slot, Encode(Frame(0x01, f.cnt, [0x04, 0x84])))]
  {
    hide OnFrame, Opened, StepWorld, EventsOf, Encode, IsRun, After, AnswersTo, P.Conserved;
    OpeningAllocates(id, w, slot, f, env);
    OnlyEntry(id, w, slot, f, env);
    OpenedIsStep(id, w, slot, f, env);
    LiveEntry(Opened(id, w, slot, f, env).run, |w.run.home|);
    TwiceDuring(id, Opened(id, w, slot, f, env), slot, f.cnt, |w.run.home|);
  }

  lemma OpenedIsStep(id: Identity, w: World, slot: nat, f: Frame, env: Env)
    requires WorldValid(w) && slot < MAX_CLIENTS
    ensures Opened(id, w, slot, f, env) == StepWorld(id, w, Opening(slot, f, env))
  {
  }

  lemma TwiceDuring(id: Identity, u: World, slot: nat, cnt: byte, n: nat)
    requires WorldValid(u) && n < |u.run.home| && n !in u.run.ended && u.run.home[n] < P.SLOTS
    requires slot < MAX_CLIENTS && u.sink.clients[slot].active && u.sink.clients[slot].sockOpen
    requires u.sink.pending[u.run.home[n]].client == slot && u.run.born[u.run.home[n]] == n
    requires P.FirstWaiting(u.sink.pending, cnt, 0) == u.run.home[n]
    ensures var mid := [FromStick(Frame(DST_LLMAC, cnt, [LLMAC_ACK, 0x01]))];
      && IsRun(id, u, mid) && n < |After(id, u, mid).run.home|
      && AnswersTo(id, u, mid, Settling(slot, cnt, n, false), n)
         == [ToClient(slot, Encode(Frame(DST_APP, cnt, [ACK, ACK_OK]))),
             ToClient(slot, Encode(Frame(DST_APP, cnt, [ACK, ACK_EUNKNOWN])))]
  {
    var ack := FromStick(Frame(DST_LLMAC, cnt, [LLMAC_ACK, 0x01]));
    hide StepWorld, EventsOf, AnswersOf, Encode, IsRun, After, AnswersIn, P.Conserved, P.FirstWaiting;
    OneSection(id, u, ack, n);
    EarlyAck(id, u, slot, cnt, n);
    StillCounted(id, u, ack, n);
    SettlingOutcome(id, StepWorld(id, u, ack), slot, cnt, n, false);
  }

  lemma EarlyAck(id: Identity, u: World, slot: nat, cnt: byte, n: nat)
    requires WorldValid(u) && n < |u.run.home| && n !in u.run.ended && u.run.home[n] < P.SLOTS
    requires slot < MAX_CLIENTS && u.sink.clients[slot].active && u.sink.clients[slot].sockOpen
    requires u.sink.pending[u.run.home[n]].client == slot && u.run.born[u.run.home[n]] == n
    requires P.FirstWaiting(u.sink.pending, cnt, 0) == u.run.home[n]
    ensures var ack := FromStick(Frame(DST_LLMAC, cnt, [LLMAC_ACK, 0x01]));
      && AnswersOf(id, u, ack, n) == [ToClient(slot, Encode(Frame(DST_APP, cnt, [ACK, ACK_OK])))]
      && StepWorld(id, u, ack).sink.clients == u.sink.clients
  {
    hide Encode, P.Conserved;
  }

  lemma StillCounted(id: Identity, w: World, sec: Section, n: nat)
    requires WorldValid(w) && Legal(w, sec) && n < |w.run.home|
    ensures n < |StepWorld(id, w, sec).run.home|
  {
    EventsLegal(w, sec);
    hide TurnOf, EventsOf, P.Conserved, C.RunAfter;
    C.HomeKept(w.run, EventsOf(w, sec), n);
  }

  // Another client's request during a transmission of more than 300 ms collects the entry, and the
  // transmission succeeds: the client is not answered and nothing waits for it any more.
  lemma AnswerLost(id: Identity, w: World, slot: nat, f: Frame, env: Env, slot2: nat, f2: Frame, env2: Env)
    requires WorldValid(w) && slot < MAX_CLIENTS && slot2 < MAX_CLIENTS && slot2 != slot
    requires w.sink.clients[slot].sockOpen && OnFrame(id, w.sink, slot, f, env).toBridge.Sending?
    requires WantsSending(f2, env2) && env2.gcNow - env.allocNow > 300_000
    ensures var u, n := Opened(id, w, slot, f, env), |w.run.home|;
      var mid, settling := [Opening(slot2, f2, env2)], Settling(slot, f.cnt, n, true);
      && WorldValid(u) && IsRun(id, u, mid) && n < |After(id, u, mid).run.home|
      && AnswersTo(id, u, mid, settling, n) == []
      && n in StepWorld(id, After(id, u, mid), settling).run.ended
  {
    var u, n := Opened(id, w, slot, f, env), |w.run.home|;
    var other, e := Opening(slot2, f2, env2), P.AllocAt(f2.cnt, slot2, env2.gcNow, env2.allocNow);
    hide OnFrame, StepWorld, EventsOf, WantsSending, WorldValid, IsRun, StaysOpen, After, EventsIn, AnswersTo;
    hide AnswersIn, C.Spared, C.Acked;
    OpeningAllocates(id, w, slot, f, env);
    OpeningKeepsOpen(id, w, slot, f, env, slot);
    OpeningKeepsOpen(id, u, slot2, f2, env2, slot);
    OpeningEvent(u, slot2, f2, env2);
    LostDuring(id, u, other, e, n, slot, f.cnt);
  }

  lemma LostDuring(id: Identity, u: World, other: Section, e: P.Event, n: nat, slot: nat, cnt: byte)
    requires WorldValid(u) && n < |u.run.home| && n !in u.run.ended && u.run.home[n] < P.SLOTS
    requires Legal(u, other) && !other.Settling? && WorldValid(StepWorld(id, u, other)) && EventsOf(u, other) == [e]
    requires slot < MAX_CLIENTS && u.sink.clients[slot].sockOpen
    requires StepWorld(id, u, other).sink.clients[slot].sockOpen
    requires var entry := u.sink.pending[u.run.home[n]];
      entry.client == slot && entry.cnt == cnt && e.AllocAt? && e.gcNow - entry.sentUs > P.TIMEOUT_US
    ensures IsRun(id, u, [other]) && n < |After(id, u, [other]).run.home|
    ensures var settling := Settling(slot, cnt, n, true);
      && AnswersTo(id, u, [other], settling, n) == []
      && n in StepWorld(id, After(id, u, [other]), settling).run.ended
  {
    hide StepWorld, EventsOf, WorldValid, IsRun, StaysOpen, After, EventsIn, AnswersTo, AnswersIn, C.Spared, C.Acked;
    hide ReadsAsAck, Legal;
    OneSection(id, u, other, n);
    StaysOpenOne(id, u, other, slot);
    LateCollection(u.sink.pending, e, u.run.home[n], u.sink.pending[u.run.home[n]].sentUs);
    LiveOutcome(id, u, [other], n, true);
  }

  lemma OpeningEvent(w: World, slot: nat, f: Frame, env: Env)
    requires WorldValid(w) && slot < MAX_CLIENTS && WantsSending(f, env)
    ensures EventsOf(w, Opening(slot, f, env)) == [P.AllocAt(f.cnt, slot, env.gcNow, env.allocNow)]
  {
  }

  lemma OpeningKeepsOpen(id: Identity, w: World, slot: nat, f: Frame, env: Env, i: nat)
    requires WorldValid(w) && slot < MAX_CLIENTS && i < MAX_CLIENTS
    ensures WorldValid(StepWorld(id, w, Opening(slot, f, env)))
    ensures StepWorld(id, w, Opening(slot, f, env)).sink.clients[i].sockOpen == w.sink.clients[i].sockOpen
  {
    StepValid(id, w, Opening(slot, f, env));
    OpenKept(id, w.sink, slot, f, env, i);
    hide OnFrame, EventsOf, P.Conserved;
  }

  lemma LateCollection(p: P.Table, e: P.Event, k: nat, t: int)
    requires e.AllocAt? && e.gcNow - t > P.TIMEOUT_US
    ensures !C.Spared(p, [e], k, t) && !C.Acked(p, [e], k, t)
  {
  }

  lemma OpenKept(id: Identity, s: Sink, slot: nat, f: Frame, env: Env, i: nat)
    requires slot < |s.clients| && i < |s.clients|
    ensures |OnFrame(id, s, slot, f, env).sink.clients| == |s.clients|
    ensures OnFrame(id, s, slot, f, env).sink.clients[i].sockOpen == s.clients[i].sockOpen
  {
    hide Encode, AppSend, SendTo;
  }

  lemma StaysOpenOne(id: Identity, w: World, sec: Section, slot: nat)
    requires WorldValid(w) && Legal(w, sec) && slot < MAX_CLIENTS && w.sink.clients[slot].sockOpen
    requires IsRun(id, w, [sec]) && WorldValid(StepWorld(id, w, sec))
    requires StepWorld(id, w, sec).sink.clients[slot].sockOpen
    ensures StaysOpen(id, w, [sec], slot)
  {
    hide StepWorld;
    assert [sec][1..] == [];
    assert StaysOpen(id, StepWorld(id, w, sec), [], slot);
  }

  // ----- The module address

  predicate SetsHmid(sec: Section) {
    && sec.Opening? && sec.frame.dst == 0x01 && |sec.frame.payload| >= 4
    && sec.frame.payload[0] == 0x00
  }

  lemma HmidKeptStep(id: Identity, w: World, sec: Section)
    requires WorldValid(w) && Legal(w, sec) && !SetsHmid(sec)
    ensures StepWorld(id, w, sec).sink.hmid == w.sink.hmid
  {
    hide Encode, SendTo, OsReply, AppReply, SendPayload, Broadcast, AckPayload, RecvPayload, P.Conserved, AppSend;
  }

  lemma {:induction false} HmidKept(id: Identity, w: World, run: seq<Section>)
    requires WorldValid(w) && IsRun(id, w, run)
    requires forall i :: 0 <= i < |run| ==> !SetsHmid(run[i])
    ensures After(id, w, run).sink.hmid == w.sink.hmid
    decreases |run|
  {
    if run != [] {
      StepValid(id, w, run[0]);
      HmidKeptStep(id, w, run[0]);
      hide StepWorld, WorldValid, SetsHmid;
      HmidKept(id, StepWorld(id, w, run[0]), run[1..]);
    }
  }

  // A module address that was set is the one reported to every client, over any sections, until a
  // frame sets another.
  lemma HmidReadsBack(id: Identity, w: World, slot: nat, cnt: byte, a: byte, b: byte, c: byte, env: Env,
                      run: seq<Section>, slot2: nat, cnt2: byte, env2: Env)
    requires WorldValid(w) && slot < MAX_CLIENTS && slot2 < MAX_CLIENTS
    requires IsRun(id, Opened(id, w, slot, Frame(0x01, cnt, [0x00, a, b, c]), env), run)
    requires forall i :: 0 <= i < |run| ==> !SetsHmid(run[i])
    ensures var u := Opened(id, w, slot, Frame(0x01, cnt, [0x00, a, b, c]), env);
      var v := After(id, u, run);
      OnFrame(id, v.sink, slot2, Frame(0x01, cnt2, [0x01]), env2).outs
      == if v.sink.clients[slot2].sockOpen
         then [ToClient(slot2, Encode(Frame(0x01, cnt2, [0x04, 0x07, 0x01, 0x01, a, b, c])))] else []
  {
    var sec := Opening(slot, Frame(0x01, cnt, [0x00, a, b, c]), env);
    var u := StepWorld(id, w, sec);
    HmidSet(id, w.sink, slot, cnt, a, b, c, env);
    hide Encode, OnFrame, After, IsRun, P.Conserved;
    HmidKept(id, u, run);
    HmidReported(id, After(id, u, run).sink, slot2, cnt2, a, b, c, env2);
  }

  lemma HmidSet(id: Identity, s: Sink, slot: nat, cnt: byte, a: byte, b: byte, c: byte, env: Env)
    requires slot < |s.clients|
    ensures OnFrame(id, s, slot, Frame(0x01, cnt, [0x00, a, b, c]), env).sink.hmid == [a, b, c]
  {
    assert [APP_SET_HMID, a, b, c][1..4] == [a, b, c];
  }

  lemma HmidReported(id: Identity, s: Sink, slot: nat, cnt: byte, a: byte, b: byte, c: byte, env: Env)
    requires slot < |s.clients| && s.hmid == [a, b, c]
    ensures OnFrame(id, s, slot, Frame(0x01, cnt, [0x01]), env).outs
         == if s.clients[slot].sockOpen
            then [ToClient(slot, Encode(Frame(0x01, cnt, [0x04, 0x07, 0x01, 0x01, a, b, c])))] else []
  {
    hide Encode;
    assert [ACK, ACK_MULTIPART, 0x01, 0x01] + [a, b, c] == [0x04, 0x07, 0x01, 0x01, a, b, c];
  }
}
