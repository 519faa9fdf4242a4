/** From cumulative upstream frames to what the client has when the stream ends. */
module Delivery {
  import opened Bytes
  import opened FenceScan
  import opened FenceRegex
  import opened FenceGate
  import opened Trim
  import Utf8

  // ---------- Cumulative frames to deltas ----------

  /** The frame to remember: a frame counts only if it properly extends the last one. */
  function Extend(emitted: bytes, cleaned: bytes): (r: bytes)
    ensures emitted <= r
  {
    if |cleaned| > |emitted| && emitted <= cleaned then cleaned else emitted
  }

  function EmittedAfter(emitted: bytes, frames: seq<bytes>, clean: bytes -> bytes): bytes
    decreases |frames|
  {
    if frames == [] then emitted
    else EmittedAfter(Extend(emitted, clean(frames[0])), frames[1..], clean)
  }

  /** What has been emitted is never retracted, is one of the cleaned frames (or nothing at all),
      and no cleaned frame ever seen says the same and more. */
  lemma {:induction false} EmittedIsMaximal(emitted: bytes, frames: seq<bytes>, clean: bytes -> bytes)
    ensures var e := EmittedAfter(emitted, frames, clean);
            && emitted <= e
            && (e == emitted || exists i :: 0 <= i < |frames| && e == clean(frames[i]))
            && (forall i :: 0 <= i < |frames| ==> !(e < clean(frames[i])))
    decreases |frames|
  {
    if frames != [] {
      var next := Extend(emitted, clean(frames[0]));
      EmittedIsMaximal(next, frames[1..], clean);
      var e := EmittedAfter(emitted, frames, clean);
      if e == next && next != emitted {
        assert e == clean(frames[0]);
      } else if e != next {
        var i :| 0 <= i < |frames[1..]| && e == clean(frames[1..][i]);
        assert frames[1..][i] == frames[i + 1];
      }
      forall i | 0 <= i < |frames|
        ensures !(e < clean(frames[i]))
      {
        if i > 0 {
          assert frames[i] == frames[1..][i - 1];
        }
      }
    }
  }

  /** When every cleaned frame extends the one before, all of the last one is emitted. */
  lemma {:induction false} GrowingFramesAreAllEmitted(emitted: bytes, frames: seq<bytes>, clean: bytes -> bytes)
    requires frames != [] && emitted <= clean(frames[0])
    requires forall i :: 0 < i < |frames| ==> clean(frames[i - 1]) <= clean(frames[i])
    ensures EmittedAfter(emitted, frames, clean) == clean(frames[|frames| - 1])
    decreases |frames|
  {
    var next := Extend(emitted, clean(frames[0]));
    assert next == clean(frames[0]);
    if |frames| == 1 {
      assert frames[1..] == [];
    } else {
      assert clean(frames[0]) <= clean(frames[1]);
      forall i | 0 < i < |frames[1..]|
        ensures clean(frames[1..][i - 1]) <= clean(frames[1..][i])
      {
        assert frames[1..][i - 1] == frames[i] && frames[1..][i] == frames[i + 1];
        assert clean(frames[i + 1 - 1]) <= clean(frames[i + 1]);
      }
      GrowingFramesAreAllEmitted(next, frames[1..], clean);
    }
  }

  class DeltaTracker {
    var emitted: bytes

    constructor ()
      ensures emitted == []
    {
      emitted := [];
    }

    method Push(fullText: bytes, clean: bytes -> bytes) returns (delta: bytes)
      modifies this
      ensures emitted == Extend(old(emitted), clean(fullText))
      ensures emitted == old(emitted) + delta
    {
      var cleaned := clean(fullText);
      if |cleaned| <= |emitted| || !(emitted <= cleaned) {
        return [];
      }
      delta := cleaned[|emitted|..];
      emitted := cleaned;
    }
  }

  // ---------- Tracker and gate together ----------

  /** Runs the frames of one response through the tracker and the gate. The client's bytes depend
      on the emitted text alone, and no character is cut in two. */
  method StreamFrames(frames: seq<bytes>, clean: bytes -> bytes, tracker: DeltaTracker, gate: ToolFenceGate)
    requires gate.Valid() && gate.input == tracker.emitted
    modifies tracker, gate
    ensures gate.Valid()
    ensures gate.input == tracker.emitted == EmittedAfter(old(tracker.emitted), frames, clean)
    ensures old(gate.emitted) <= gate.emitted
    ensures old(Utf8.WellFormed(tracker.emitted) && gate.OnCharacterBoundaries()) ==>
              (forall f :: Utf8.WellFormed(clean(f))) ==> gate.OnCharacterBoundaries()
  {
    hide Utf8.WellFormed, Scan;
    ghost var clear := (forall f :: Utf8.WellFormed(clean(f))) && Utf8.WellFormed(tracker.emitted)
                       && gate.OnCharacterBoundaries();
    for n := 0 to |frames|
      invariant gate.Valid() && gate.input == tracker.emitted
      invariant EmittedAfter(tracker.emitted, frames[n..], clean)
             == EmittedAfter(old(tracker.emitted), frames, clean)
      invariant old(gate.emitted) <= gate.emitted
      invariant clear ==> Utf8.WellFormed(tracker.emitted) && gate.OnCharacterBoundaries()
    {
      assert frames[n..][0] == frames[n] && frames[n..][1..] == frames[n + 1..];
      ghost var before := tracker.emitted;
      var d := tracker.Push(frames[n], clean);
      if clear && d != [] {
        Utf8.RestWellFormed(before, d);
      }
      if d != [] {
        gate.Push(d);
      }
    }
    assert frames[|frames|..] == [];
  }

  // ---------- The tail that is sent at the end ----------

  function RemainingOf(full: bytes, emitted: bytes): bytes {
    if emitted == [] then full
    else if emitted <= full then full[|emitted|..]
    else []
  }

  /** Nothing is sent twice and nothing is taken back: the whole text arrives exactly when what
      was sent is a prefix of it, and otherwise nothing is added. */
  lemma RemainingCompletes(full: bytes, sent: bytes)
    ensures sent + RemainingOf(full, sent) == (if sent <= full then full else sent)
    ensures sent + RemainingOf(full, sent) == full <==> sent <= full
  {
    assert [] + full == full;
  }

  datatype Event = Reasoning(text: bytes) | Content(text: bytes) | ToolCalls | Finish

  function ContentOf(events: seq<Event>): bytes {
    if events == [] then []
    else (if events[0].Content? then events[0].text else []) + ContentOf(events[1..])
  }

  function ReasoningOf(events: seq<Event>): bytes {
    if events == [] then []
    else (if events[0].Reasoning? then events[0].text else []) + ReasoningOf(events[1..])
  }

  lemma {:induction false} ContentAppend(a: seq<Event>, b: seq<Event>)
    ensures ContentOf(a + b) == ContentOf(a) + ContentOf(b)
  {
    if a == [] {
      assert a + b == b;
    } else {
      var e := if a[0].Content? then a[0].text else [];
      SliceLeft(a, b, 1);
      ContentAppend(a[1..], b);
      ConcatAssoc(e, ContentOf(a[1..]), ContentOf(b));
    }
  }

  lemma {:induction false} ReasoningAppend(a: seq<Event>, b: seq<Event>)
    ensures ReasoningOf(a + b) == ReasoningOf(a) + ReasoningOf(b)
  {
    if a == [] {
      assert a + b == b;
    } else {
      var e := if a[0].Reasoning? then a[0].text else [];
      SliceLeft(a, b, 1);
      ReasoningAppend(a[1..], b);
      ConcatAssoc(e, ReasoningOf(a[1..]), ReasoningOf(b));
    }
  }

  lemma EventsAppend(a: seq<Event>, b: seq<Event>)
    ensures ContentOf(a + b) == ContentOf(a) + ContentOf(b)
    ensures ReasoningOf(a + b) == ReasoningOf(a) + ReasoningOf(b)
  {
    ContentAppend(a, b);
    ReasoningAppend(a, b);
  }

  class SseWriter {
    var events: seq<Event>

    method Send(e: Event)
      modifies this
      ensures events == old(events) + [e]
    {
      events := events + [e];
    }

    /** The end of a streamed reply: missing reasoning, missing content, tool calls, finish. */
    method FinishStream(reasoning: bytes, emittedReasoning: bytes, text: bytes, sent: bytes, calls: nat)
      modifies this
      ensures events == old(events) + LastEvents(reasoning, emittedReasoning, text, sent, calls)
    {
      hide RemainingOf, Closing;
      ghost var before := events;
      ghost var r := if reasoning != [] then RemainingOf(reasoning, emittedReasoning) else [];
      if reasoning != [] {
        var rest := RemainingOf(reasoning, emittedReasoning);
        if rest != [] {
          Send(Reasoning(rest));
        }
      }
      var rest := RemainingOf(text, sent);
      if rest != [] {
        Send(Content(rest));
      }
      if calls > 0 {
        Send(ToolCalls);
      }
      Send(Finish);
      ClosingSteps(before, r, rest, calls);
    }
  }

  lemma ClosingSteps(before: seq<Event>, r: bytes, c: bytes, calls: nat)
    ensures var a := if r != [] then before + [Reasoning(r)] else before;
            var b := if c != [] then a + [Content(c)] else a;
            var d := if calls > 0 then b + [ToolCalls] else b;
            d + [Finish] == before + Closing(r, c, calls)
  {
  }

  function Closing(r: bytes, c: bytes, calls: nat): seq<Event> {
    (if r != [] then [Reasoning(r)] else []) + (if c != [] then [Content(c)] else [])
    + (if calls > 0 then [ToolCalls] else []) + [Finish]
  }

  function LastEvents(reasoning: bytes, emittedReasoning: bytes, text: bytes, sent: bytes, calls: nat): seq<Event> {
    Closing(if reasoning != [] then RemainingOf(reasoning, emittedReasoning) else [], RemainingOf(text, sent), calls)
  }

  /** Nothing but content and reasoning. */
  ghost predicate Plain(events: seq<Event>) {
    forall e :: e in events ==> e.Content? || e.Reasoning?
  }

  /** After all content and reasoning the tool calls are sent once, if there are any, and then the end. */
  ghost predicate Ends(events: seq<Event>, calls: nat) {
    var end := (if calls > 0 then [ToolCalls] else []) + [Finish];
    |end| <= |events| && events[|events| - |end|..] == end && Plain(events[..|events| - |end|])
  }

  lemma ClosingOrder(r: bytes, c: bytes, calls: nat)
    ensures var last := Closing(r, c, calls);
            && Ends(last, calls)
            && (ToolCalls in last <==> calls > 0)
            && (forall i, j :: 0 <= i < |last| && 0 <= j < |last| && last[i].Reasoning? && last[j].Content? ==> i < j)
  {
  }

  lemma OneEvent(e: Event)
    ensures ContentOf([e]) == (if e.Content? then e.text else [])
      && ReasoningOf([e]) == (if e.Reasoning? then e.text else [])
  {
    assert [e][1..] == [];
    if e.Content? { assert e.text + [] == e.text; }
    if e.Reasoning? { assert e.text + [] == e.text; }
  }

  lemma NoEvents()
    ensures ContentOf([]) == [] && ReasoningOf([]) == []
  {
  }

  lemma ClosingContents(r: bytes, c: bytes, calls: nat)
    ensures ContentOf(Closing(r, c, calls)) == c && ReasoningOf(Closing(r, c, calls)) == r
  {
    hide ContentOf, ReasoningOf;
    var a := if r != [] then [Reasoning(r)] else [];
    var b := if c != [] then [Content(c)] else [];
    var d := if calls > 0 then [ToolCalls] else [];
    NoEvents();
    OneEvent(Reasoning(r));
    OneEvent(Content(c));
    OneEvent(ToolCalls);
    OneEvent(Finish);
    EventsAppend(a, b);
    EventsAppend(a + b, d);
    EventsAppend(a + b + d, [Finish]);
    assert r + [] + [] + [] == r && [] + c + [] + [] == c;
  }

  lemma EndsAfter(before: seq<Event>, last: seq<Event>, calls: nat)
    requires Ends(last, calls)
    ensures Plain(before) ==> Ends(before + last, calls)
  {
    var all, n := before + last, if calls > 0 then 2 else 1;
    assert all[|all| - n..] == last[|last| - n..];
    assert all[..|all| - n] == before + last[..|last| - n];
  }

  /** When the client has `sent` and `thought`, it ends with the whole text and the whole
      reasoning, or, where the prefix does not fit, with what it had. The reasoning that is added
      comes before the content that is added, and tool calls come once, after all of it. */
  lemma StreamEndsComplete(before: seq<Event>, reasoning: bytes, text: bytes, calls: nat)
    ensures var sent, thought := ContentOf(before), ReasoningOf(before);
            var last := LastEvents(reasoning, thought, text, sent, calls);
            && ContentOf(before + last) == (if sent <= text then text else sent)
            && ReasoningOf(before + last) == (if thought <= reasoning then reasoning else thought)
            && (Plain(before) ==> Ends(before + last, calls))
            && (ToolCalls in last <==> calls > 0)
            && (forall i, j :: 0 <= i < |last| && 0 <= j < |last| && last[i].Reasoning? && last[j].Content? ==> i < j)
  {
    hide Closing, ContentOf, ReasoningOf;
    var sent, thought := ContentOf(before), ReasoningOf(before);
    var r := if reasoning != [] then RemainingOf(reasoning, thought) else [];
    var c := RemainingOf(text, sent);
    EventsAppend(before, Closing(r, c, calls));
    RemainingCompletes(text, sent);
    RemainingCompletes(reasoning, thought);
    ClosingContents(r, c, calls);
    ClosingOrder(r, c, calls);
    EndsAfter(before, Closing(r, c, calls), calls);
    assert thought + [] == thought;
  }

  // ---------- What the client has, compared with the text that was meant ----------

  /** For every text: a gated reply arrives exactly as it was meant if and only if what was sent is
      a prefix of the trimmed text without its fences, and up to trimming also when what was sent
      is that text but for white space around it. */
  lemma ArrivesWholeIff(t: bytes)
    ensures var g, final := Gate(t), TrimSpace(Strip(t));
            var got := g.sent + RemainingOf(final, g.sent);
            && (got == final <==> g.sent <= final)
            && (TrimSpace(got) == final <==> g.sent <= final || TrimSpace(g.sent) == final)
  {
    hide Scan, Strip, TrimSpace;
    var g, final := Gate(t), TrimSpace(Strip(t));
    RemainingCompletes(final, g.sent);
    TrimIdempotent(Strip(t));
  }

  /** A reply without fences and with nothing held arrives up to trimming, and exactly as it is meant if
      and only if there is no white space around it. */
  lemma PlainReplyArrivesIff(t: bytes)
    requires !Contains(t, OPEN) && LongestPartialLen(t, OPEN) == 0
    ensures var g, final := Gate(t), TrimSpace(Strip(t));
            var got := g.sent + RemainingOf(final, g.sent);
            (got == final <==> TrimSpace(t) == t) && TrimSpace(got) == final
  {
    hide Scan, Strip, OPEN, CLOSE, TrimLeft, TrimRight, LongestPartialLen;
    assert Gate(t) == GateState(t, [], false) by { PlainIsSent(t); }
    StripWithoutOpener(t);
    ArrivesWholeIff(t);
  }

  lemma PlainIsSent(t: bytes)
    requires !Contains(t, OPEN) && LongestPartialLen(t, OPEN) == 0
    ensures Gate(t) == GateState(t, [], false)
  {
    hide Scan, OPEN, CLOSE, LongestPartialLen;
    SettleStep([], t, OPEN, CLOSE, 0);
    AfterNothing(Scan(t, false, OPEN, CLOSE));
    assert [] + t[..|t|] == t;
  }

  /** A reply whose fences are on lines of their own loses text at its end exactly when something
      was still held back and what was sent begins with white space: then the prefix test fails and
      the tail is not sent. */
  lemma TailIsLostIff(fs: seq<Fence>, tail: Tail)
    requires WellFenced(fs, tail)
    ensures var t := Render(fs, tail);
            var g := Gate(t);
            var final := TrimSpace(Strip(t));
            var got := g.sent + RemainingOf(final, g.sent);
            TrimSpace(got) == final <==> Pending(g) == [] || SpaceLen(g.sent) == 0
  {
    hide Scan, Strip, WellFenced, TrimSpace, SpaceLen;
    var t := Render(fs, tail);
    var g := Gate(t);
    GateAgreesWithRegex(fs, tail);
    PendingStartsWithTick(t);
    RemainingCompletes(TrimSpace(g.sent + Pending(g)), g.sent);
    TrimKeepsPrefixIff(g.sent, Pending(g));
  }

  lemma PendingStartsWithTick(t: bytes)
    ensures Pending(Gate(t)) == [] || Pending(Gate(t))[0] == TICK
  {
    hide Scan;
    var tail := HeldIsExact(t, false, OPEN, CLOSE);
    var g := Gate(t);
    if !g.inFence && g.held != [] {
      assert g.held == OPEN[..|g.held|];
    }
  }

  /** parseToolCalls trims, so what was sent is a prefix of the final text only if it starts
      with no white space; when nothing is held back, trimming what was sent gives the same. */
  lemma TrimKeepsPrefixIff(sent: bytes, pending: bytes)
    requires pending == [] || pending[0] == TICK
    ensures var final := TrimSpace(sent + pending);
            var got := if sent <= final then final else sent;
            TrimSpace(got) == final <==> pending == [] || SpaceLen(sent) == 0
  {
    hide SpaceLen, TrimLeft, TrimRight;
    var final := TrimSpace(sent + pending);
    TrimIdempotent(sent + pending);
    if pending == [] {
      assert sent + pending == sent;
    } else {
      TrimLeftBeforeTick(sent, pending);
      TrimRightAfterTick(TrimLeft(sent), pending);
      if SpaceLen(sent) == 0 {
        TrimLeftNothing(sent);
      } else {
        TrimmedStart(sent + pending);
        if sent <= final { SpaceLenOfPrefix(sent, final); }
      }
    }
  }

  /** A fence on one line, and a letter: the expression keeps the fence, the gate drops it, and
      nothing of the fence is sent at the end. */
  lemma OneLineFenceIsLost()
    ensures var t := Render([Fence([], [0x78])], Settled([0x61]));
            var g, final := Gate(t), TrimSpace(Strip(t));
            && Pending(g) == [] && SpaceLen(g.sent) == 0
            && TrimSpace(g.sent + RemainingOf(final, g.sent)) != final
  {
    hide Strip, Scan, TrimSpace, Index, Contains, LongestPartialLen, MatchEnd, BodyEnd, OPEN, CLOSE;
    var f, tail := Fence([], [0x78]), Settled([0x61]);
    var t := Render([f], tail);
    OneLineState();
    OpenerStart();
    assert NL !in [0x78] + CLOSE + [0x61] by { CloserHasNoLineBreak(); }
    assert t == OPEN + ([0x78] + CLOSE + [0x61]) by {
      assert [f][1..] == [] && [] + OPEN + (f.inner + CLOSE + [0x61]) == OPEN + ([0x78] + CLOSE + [0x61]);
    }
    NoLineBreakNoMatch([0x78] + CLOSE + [0x61]);
    StripWithoutMatch([0x78] + CLOSE + [0x61]);
    TrimmedTick(OPEN, Strip([0x78] + CLOSE + [0x61]));
    ArrivesWholeIff(t);
    LetterIsTrimmed();
  }

  /** A blank fence, a letter, and a line with three back-ticks: the expression drops all of it, and
      what the gate sent is not taken back. */
  lemma OverrunIsNotTakenBack()
    ensures var t := Render([Fence([], [NL, NL])], Settled([0x78, NL, TICK, TICK, TICK]));
            var g, final := Gate(t), TrimSpace(Strip(t));
            && final == [] && g.sent == [0x78, NL] && TrimSpace(g.sent + RemainingOf(final, g.sent)) != final
  {
    hide Strip, Scan, TrimSpace, Index, Contains, LongestPartialLen, MatchEnd, BodyEnd, OPEN, CLOSE;
    var f, plain := Fence([], [NL, NL]), [0x78, NL, TICK, TICK, TICK];
    var t := Render([f], Settled(plain));
    OverrunState();
    MarkerBytes();
    assert t == OPEN + (f.inner + (CLOSE + [0x78]) + NLCLOSE) by {
      assert plain == [0x78] + NLCLOSE;
      assert [f][1..] == [] && t == [] + OPEN + (f.inner + CLOSE + plain);
    }
    assert SpaceRun(f.inner) == 2;
    BlankRunsOn(f.inner, CLOSE + [0x78]);
    NothingIsTrimmed();
    ArrivesWholeIff(t);
    LetterStays();
  }

  lemma OverrunState()
    ensures Gate(Render([Fence([], [NL, NL])], Settled([0x78, NL, TICK, TICK, TICK]))).sent == [0x78, NL]
  {
    hide Scan, OPEN, CLOSE, LongestPartialLen;
    var f, plain := Fence([], [NL, NL]), [0x78, NL, TICK, TICK, TICK];
    OpenerStart();
    TooShort([], OPEN);
    TooShort(plain, OPEN);
    FirstCloser(f.inner);
    assert f.Cut() && AllCut([f]);
    GateOnFences([f], Settled(plain));
    assert [f][1..] == [] && PlainText([]) == [] && PlainText([f]) == [];
    AfterNothing(Scan(plain, false, OPEN, CLOSE));
    TicksAreHeld(plain);
    SettleStep([], plain, OPEN, CLOSE, 3);
    AfterNothing(Scan(plain, false, OPEN, CLOSE));
    assert [] + plain[..2] == [0x78, NL];
  }

  lemma TicksAreHeld(t: bytes)
    requires t == [0x78, NL, TICK, TICK, TICK]
    ensures LongestPartialLen(t, OPEN) == 3
  {
    hide OPEN, LongestPartialLen;
    OpenerStart();
    assert t[2..] == [TICK, TICK, TICK] == OPEN[..3] by { OpenerTicks(); }
    assert Partial(t, OPEN, 3);
    forall j
      ensures Partial(t, OPEN, j) && j > 3 ==> t[|t| - j] == TICK
    {
      if Partial(t, OPEN, j) && j > 3 { PartialStart(t, OPEN, j); }
    }
    LongestPartialIs(t, OPEN, 3);
  }

  lemma OpenerTicks()
    ensures OPEN[..3] == [TICK, TICK, TICK]
  {
  }

  lemma NothingIsTrimmed()
    ensures TrimSpace([]) == []
  {
  }

  lemma LetterStays()
    ensures TrimSpace([0x78, NL]) != []
  {
    hide TrimRight;
    var t: bytes := [0x78, NL];
    assert SpaceLen(t) == 0;
    TrimLeftNothing(t);
    TrimRightKeeps(t);
  }

  lemma TrimRightKeeps(t: bytes)
    requires t == [0x78, NL]
    ensures TrimRight(t) != []
  {
    assert t[..1] == [0x78] && [0x78][0..] == [0x78];
    if LastSpaceLen(t) == 1 {
      assert t[..|t| - 1] == [0x78];
    }
  }

  lemma OneLineState()
    ensures Gate(Render([Fence([], [0x78])], Settled([0x61]))) == GateState([0x61], [], false)
  {
    hide Scan, OPEN, CLOSE;
    var f, tail := Fence([], [0x78]), Settled([0x61]);
    OpenerStart();
    TooShort([], OPEN);
    TooShort(tail.plain, OPEN);
    FirstCloser(f.inner);
    assert f.Cut() && AllCut([f]);
    GateOnFences([f], tail);
    assert [f][1..] == [] && PlainText([]) == [] && PlainText([f]) == [];
    AfterNothing(Scan(tail.plain, false, OPEN, CLOSE));
    NoPartial([0x61], OPEN);
    LongestPartialIs([0x61], OPEN, 0);
    SettleStep([], [0x61], OPEN, CLOSE, 0);
    assert [] + [0x61][..1] == [0x61];
  }

  lemma NoPartial(t: bytes, marker: Marker)
    requires marker[0] !in t
    ensures LongestPartial(t, marker, 0)
  {
    forall j
      ensures Partial(t, marker, j) && j > 0 ==> 0 <= |t| - j < |t| && t[|t| - j] == marker[0]
    {
      if Partial(t, marker, j) && j > 0 { PartialStart(t, marker, j); }
    }
  }

  lemma NoLineBreakNoMatch(u: bytes)
    requires NL !in u
    ensures MatchEnd(OPEN + u) < 0
  {
    hide OPEN;
    assert (OPEN + u)[|OPEN|..] == u;
    forall p
      ensures !Exit(u, p)
    {
      if 0 <= p < |u| { assert u[p] in u; }
    }
    var q := BodyEndPicks(u, SpaceRun(u));
  }

  lemma TrimmedTick(p: bytes, x: bytes)
    requires p != [] && p[0] == TICK
    ensures TrimSpace(p + x) != [] && TrimSpace(p + x)[0] == TICK
  {
    hide TrimRight, LastSpaceLen;
    var t := p + x;
    assert SpaceLen(t) == 0;
    TrimLeftNothing(t);
    assert [] + t == t;
    TrimRightAfterTick([], t);
  }

  lemma CloserHasNoLineBreak()
    ensures NL !in CLOSE
  {
  }

  lemma LetterIsTrimmed()
    ensures TrimSpace([0x61]) == [0x61] && SpaceLen([0x61]) == 0
  {
    hide TrimLeft, TrimRight, LastSpaceLen;
    assert SpaceLen([0x61]) == 0;
    TrimLeftNothing([0x61]);
    LetterIsKept();
  }

  lemma LetterIsKept()
    ensures TrimRight([0x61]) == [0x61]
  {
    hide SpaceLen;
    assert [0x61][0..] == [0x61];
    assert LastSpaceLen([0x61]) == 0 by { LetterIsNoSpace(); }
  }

  lemma LetterIsNoSpace()
    ensures LastSpaceLen([0x61]) == 0
  {
    var t: bytes := [0x61];
    assert t[|t| - 1..] == t;
  }

  /** A fence, a line break, a letter, and the first back-tick of something: the back-tick is lost. */
  lemma HeldTickIsLost()
    ensures var t := Render([Fence([], [NL, 0x7B, NL])], Settled([NL, 0x61, TICK]));
            var g := Gate(t);
            var final := TrimSpace(Strip(t));
            TrimSpace(g.sent + RemainingOf(final, g.sent)) != final
  {
    hide Strip, Render, TrimSpace;
    var f, tail := Fence([], [NL, 0x7B, NL]), Settled([NL, 0x61, TICK]);
    TooShort([], OPEN);
    TooShort(tail.plain, OPEN);
    FirstCloser(f.inner);
    assert OwnLines(f.inner, Render([], tail)) by {
      assert SpaceRun(f.inner) == 1;
      assert f.inner[0] == NL && 0 <= SpaceRun(f.inner);
    }
    assert [f][1..] == [] && WellFenced([], tail);
    assert WellFenced([f], tail);
    HeldTickState();
    TailIsLostIff([f], tail);
  }

  lemma HeldTickState()
    ensures var g := Gate(Render([Fence([], [NL, 0x7B, NL])], Settled([NL, 0x61, TICK])));
            Pending(g) != [] && SpaceLen(g.sent) > 0
  {
    hide Scan;
    var f, tail := Fence([], [NL, 0x7B, NL]), Settled([NL, 0x61, TICK]);
    TooShort([], OPEN);
    TooShort(tail.plain, OPEN);
    FirstCloser(f.inner);
    assert f.Cut() && AllCut([f]);
    GateOnFences([f], tail);
    assert [f][1..] == [] && PlainText([]) == [] && PlainText([f]) == [];
    AfterNothing(Scan(tail.plain, false, OPEN, CLOSE));
    SettledTick(tail.plain);
  }

  lemma PartialStart(s: bytes, marker: Marker, k: int)
    requires Partial(s, marker, k) && k > 0
    ensures s[|s| - k] == marker[0]
  {
    assert s[|s| - k] == s[|s| - k..][0];
  }

  lemma OpenerStart()
    ensures |OPEN| == 12 && OPEN[0] == TICK && OPEN[..1] == [TICK]
  {
  }

  lemma SettledTick(t: bytes)
    requires t == [NL, 0x61, TICK]
    ensures Scan(t, false, OPEN, CLOSE) == GateState([NL, 0x61], [TICK], false)
  {
    hide OPEN, CLOSE, Scan, LongestPartialLen;
    OpenerStart();
    TooShort(t, OPEN);
    assert t[2..] == [TICK];
    assert Partial(t, OPEN, 1);
    forall j | Partial(t, OPEN, j)
      ensures j <= 1
    {
      if j > 0 { PartialStart(t, OPEN, j); }
    }
    LongestPartialIs(t, OPEN, 1);
    SettleStep([], t, OPEN, CLOSE, 1);
    AfterNothing(Scan(t, false, OPEN, CLOSE));
    assert [] + t[..2] == [NL, 0x61];
  }
}
