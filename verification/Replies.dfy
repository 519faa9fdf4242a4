/** A streamed reply as a whole: upstream replies, the gate, and what the client has at the end. */
module Replies {
  import opened Bytes
  import opened FenceRegex
  import opened FenceGate
  import opened Trim
  import opened Delivery
  import Retry
  import opened RetryLoops

  // ---------- The final text and reasoning of a reply ----------

  /** The cleaned last text that is not blank, or nothing. */
  function FinalText(texts: seq<bytes>, clean: bytes -> bytes): bytes {
    if texts == [] then []
    else if TrimSpace(texts[|texts| - 1]) != [] then clean(texts[|texts| - 1])
    else FinalText(texts[..|texts| - 1], clean)
  }

  /** extractResponseText */
  method ExtractText(texts: seq<bytes>, clean: bytes -> bytes) returns (text: bytes)
    ensures text == FinalText(texts, clean)
  {
    hide TrimSpace;
    var i := |texts|;
    assert texts[..i] == texts;
    while i > 0
      invariant 0 <= i <= |texts| && FinalText(texts[..i], clean) == FinalText(texts, clean)
    {
      assert texts[..i][..i - 1] == texts[..i - 1];
      i := i - 1;
      if TrimSpace(texts[i]) != [] {
        return clean(texts[i]);
      }
    }
    return [];
  }

  /** Blank texts at the end are passed over, and there is no final text only if all are blank. */
  lemma {:induction false} FinalTextIsLast(texts: seq<bytes>, clean: bytes -> bytes, k: int)
    requires -1 <= k < |texts| && (k >= 0 ==> TrimSpace(texts[k]) != [])
    requires forall j :: k < j < |texts| ==> TrimSpace(texts[j]) == []
    ensures FinalText(texts, clean) == if k < 0 then [] else clean(texts[k])
  {
    hide TrimSpace;
    if k < |texts| - 1 {
      FinalTextIsLast(texts[..|texts| - 1], clean, k);
    }
  }

  /** The first of the longest thoughts, if one is longer than `best`. */
  function Longest(best: bytes, thoughts: seq<bytes>): (r: bytes)
    ensures r == best || r in thoughts
    ensures |best| <= |r| && forall t :: t in thoughts ==> |t| <= |r|
    decreases |thoughts|
  {
    if thoughts == [] then best
    else Longest(if |thoughts[0]| > |best| then thoughts[0] else best, thoughts[1..])
  }

  /** extractReasoning */
  method ExtractReasoning(thoughts: seq<bytes>, clean: bytes -> bytes) returns (reasoning: bytes)
    ensures reasoning == clean(Longest([], thoughts))
  {
    var best := [];
    for i := 0 to |thoughts|
      invariant Longest(best, thoughts[i..]) == Longest([], thoughts)
    {
      assert thoughts[i..][0] == thoughts[i] && thoughts[i..][1..] == thoughts[i + 1..];
      if |thoughts[i]| > |best| {
        best := thoughts[i];
      }
    }
    assert thoughts[|thoughts|..] == [];
    return clean(best);
  }

  /** What was emitted is the final text when every cleaned text extends the one before and the last
      one is not blank. */
  lemma EmittedIsFinal(texts: seq<bytes>, clean: bytes -> bytes)
    requires texts != [] && TrimSpace(texts[|texts| - 1]) != []
    requires forall i :: 0 < i < |texts| ==> clean(texts[i - 1]) <= clean(texts[i])
    ensures EmittedAfter([], texts, clean) == FinalText(texts, clean)
  {
    GrowingFramesAreAllEmitted([], texts, clean);
  }

  // ---------- Callbacks to events ----------

  /** The content of chunks that the gate emits. */
  function Contents(chunks: seq<bytes>): seq<Event> {
    if chunks == [] then [] else [Content(chunks[0])] + Contents(chunks[1..])
  }

  lemma {:induction false} ContentsJoin(chunks: seq<bytes>)
    ensures ContentOf(Contents(chunks)) == Join(chunks) && ReasoningOf(Contents(chunks)) == []
    ensures Plain(Contents(chunks))
  {
    if chunks != [] {
      ContentsJoin(chunks[1..]);
      var rest := Contents(chunks[1..]);
      assert ([Content(chunks[0])] + rest)[1..] == rest;
      assert [] + ReasoningOf(rest) == [];
    }
  }

  lemma {:induction false} JoinConcat(a: seq<bytes>, b: seq<bytes>)
    ensures Join(a + b) == Join(a) + Join(b)
  {
    if a == [] {
      assert a + b == b;
    } else {
      assert (a + b)[1..] == a[1..] + b;
      JoinConcat(a[1..], b);
      ConcatAssoc(a[0], Join(a[1..]), Join(b));
    }
  }

  class Client {
    const gated: bool   // whether the request has tools
    const gate: ToolFenceGate
    const sse: SseWriter

    constructor (gated: bool, gate: ToolFenceGate, sse: SseWriter)
      requires gate.Valid() && gate.input == [] && gate.emitted == [] && sse.events == []
      ensures this.gated == gated && this.gate == gate && this.sse == sse
      ensures Heard([], [])
    {
      this.gated, this.gate, this.sse := gated, gate, sse;
      new;
      EmptyText();
      NothingHeard();
    }

    /** The text that the client has of `text`, which is what the callback was given. */
    ghost function SentOf(text: bytes): bytes {
      if gated then Gate(text).sent else text
    }

    /** The client has what lies outside fences, and all of the reasoning, and nothing else. */
    ghost predicate Heard(text: bytes, thought: bytes)
      reads gate, sse
    {
      && gate.Valid() && (gated ==> gate.input == text)
      && ContentOf(sse.events) == SentOf(text)
      && ReasoningOf(sse.events) == thought
      && Plain(sse.events)
    }

    /** The reasoning callback. */
    method OnReasoning(delta: bytes, ghost text: bytes, ghost thought: bytes)
      requires Heard(text, thought)
      modifies sse
      ensures Heard(text, thought + delta)
    {
      hide ContentOf, ReasoningOf, Gate;
      EventsAppend(sse.events, [Reasoning(delta)]);
      OneEvent(Reasoning(delta));
      assert ContentOf(sse.events) + [] == ContentOf(sse.events);
      sse.Send(Reasoning(delta));
    }

    /** The text callback: through the gate if the request has tools. */
    method OnDelta(delta: bytes, ghost text: bytes, ghost thought: bytes)
      requires Heard(text, thought)
      modifies gate, sse
      ensures Heard(text + delta, thought)
    {
      hide ContentOf, ReasoningOf, Gate, Join;
      if !gated {
        EventsAppend(sse.events, [Content(delta)]);
        OneEvent(Content(delta));
        assert ReasoningOf(sse.events) + [] == ReasoningOf(sse.events);
        sse.Send(Content(delta));
        return;
      }
      ghost var before := gate.emitted;
      var n := |gate.emitted|;
      gate.Push(delta);
      var chunks := gate.emitted[n..];
      SendAll(chunks);
      assert gate.emitted == before + chunks;
      JoinConcat(before, chunks);
      ContentsJoin(chunks);
      assert ReasoningOf(old(sse.events)) + [] == ReasoningOf(old(sse.events));
    }

    /** The emit callback of the gate, for the chunks of one push. */
    method SendAll(chunks: seq<bytes>)
      modifies sse
      ensures sse.events == old(sse.events) + Contents(chunks)
      ensures ContentOf(sse.events) == ContentOf(old(sse.events)) + ContentOf(Contents(chunks))
      ensures ReasoningOf(sse.events) == ReasoningOf(old(sse.events)) + ReasoningOf(Contents(chunks))
    {
      hide ContentOf, ReasoningOf;
      ghost var start := sse.events;
      for i := 0 to |chunks|
        invariant sse.events + Contents(chunks[i..]) == start + Contents(chunks)
      {
        assert chunks[i..][0] == chunks[i] && chunks[i..][1..] == chunks[i + 1..];
        ghost var now, later := sse.events, Contents(chunks[i + 1..]);
        assert now + ([Content(chunks[i])] + later) == now + [Content(chunks[i])] + later;
        sse.Send(Content(chunks[i]));
      }
      assert chunks[|chunks|..] == [];
      assert sse.events + [] == sse.events;
      EventsAppend(start, Contents(chunks));
    }

    /** All callbacks of a request, in the order of its log. */
    method Relay(log: Retry.Log)
      requires Heard([], [])
      modifies gate, sse
      ensures Heard(Retry.TextOf(log), Retry.ThoughtOf(log))
    {
      hide Heard, Retry.TextOf, Retry.ThoughtOf;
      NoCallbacks();
      for n := 0 to |log|
        invariant Heard(Retry.TextOf(log[..n]), Retry.ThoughtOf(log[..n]))
      {
        OneCallback(log, n);
        match log[n] {
          case Delta(text) => OnDelta(text, Retry.TextOf(log[..n]), Retry.ThoughtOf(log[..n]));
          case Thought(text) => OnReasoning(text, Retry.TextOf(log[..n]), Retry.ThoughtOf(log[..n]));
          case _ =>
        }
      }
      assert log[..|log|] == log;
    }

    /** What the client has when the handler is done. */
    ghost predicate Served(emitted: bytes, thought: bytes, text: bytes, reasoning: bytes, calls: nat)
      reads sse
    {
      var sent := SentOf(emitted);
      && ContentOf(sse.events) == (if sent <= text then text else sent)
      && ReasoningOf(sse.events) == (if thought <= reasoning then reasoning else thought)
      && Ends(sse.events, calls)
    }

    /** The end of the handler: what is missing is sent, compared with what the client really has. */
    method Complete(emitted: bytes, thought: bytes, text: bytes, reasoning: bytes, calls: nat)
      requires Heard(emitted, thought)
      modifies sse
      ensures Served(emitted, thought, text, reasoning, calls)
    {
      hide ContentOf, ReasoningOf, Gate, LastEvents, Plain, Ends;
      StreamEndsComplete(sse.events, reasoning, text, calls);
      var sent := if gated then gate.sent else emitted;
      sse.FinishStream(reasoning, thought, text, sent, calls);
    }

    /** The text that is sent in the end: without fences and trimmed if the request has tools. */
    ghost function Meant(raw: bytes): bytes {
      if gated then TrimSpace(Strip(raw)) else raw
    }

    /** What the client has of the reply to the last request, with its tool calls; or what was called
        back, and no end, if no reply was good or the good one had no text. */
    ghost predicate Answered(outcome: RetryLoops.Outcome, up: Retry.Upstream, v: Retry.Voices, emitted: bytes,
                             thought: bytes, calls: nat)
      reads gate, sse
    {
      var frames := if outcome.Replied? then up(outcome.index).frames else [];
      var raw := FinalText(Retry.TextsOf(frames), v.clean);
      if raw == [] then Heard(emitted, thought)
      else Served(emitted, thought, Meant(raw), v.clean(Longest([], Retry.ThoughtsOf(frames))), calls)
    }

    /** A whole streamed request. The client's content and reasoning are a function of the frames of the
        upstream replies: of what they emit, through the gate, and of the final text and reasoning of
        the good one. `strip` is the library's replacement of the fence expression. */
    method Stream(talk: Conversation, retries: int, up: Retry.Upstream, strip: bytes -> bytes, calls: nat)
      returns (outcome: RetryLoops.Outcome)
      requires Heard([], []) && forall t :: strip(t) == Strip(t)
      requires talk.Consistent() && talk.log == [] && talk.cookie == talk.cookie0
      requires talk.tracker.emitted == [] && talk.rtracker.emitted == []
      modifies talk, talk.tracker, talk.rtracker, talk.accounts, talk.proxies, gate, sse
      ensures talk.Finished(retries, up, outcome) && talk.Heeded(up, Retry.Count(talk.log, Retry.IsSent))
      ensures Answered(outcome, up, talk.voices, talk.tracker.emitted, talk.rtracker.emitted, calls)
    {
      hide Answered, Heard, SoundLog, Repeats, RefreshedBy, Conversation.Heeded, Strip;
      outcome := talk.RetryLoop(retries, up);
      assert Retry.TextOf(talk.log) == talk.tracker.emitted && Retry.ThoughtOf(talk.log) == talk.rtracker.emitted;
      Relay(talk.log);
      Answer(outcome, up, talk.voices, talk.tracker.emitted, talk.rtracker.emitted, strip, calls);
    }

    /** The handler after the request: the final text and reasoning of a good reply. */
    method Answer(outcome: RetryLoops.Outcome, up: Retry.Upstream, v: Retry.Voices, emitted: bytes, thought: bytes,
                  strip: bytes -> bytes, calls: nat)
      requires Heard(emitted, thought) && forall t :: strip(t) == Strip(t)
      modifies sse
      ensures Answered(outcome, up, v, emitted, thought, calls)
    {
      hide ContentOf, ReasoningOf, Gate, Served, Heard, Strip, TrimSpace;
      if !outcome.Replied? {
        return;
      }
      var frames := up(outcome.index).frames;
      var text := ExtractText(Retry.TextsOf(frames), v.clean);
      if text == [] {
        return;
      }
      if gated {
        text := TrimSpace(strip(text));
      }
      var reasoning := ExtractReasoning(Retry.ThoughtsOf(frames), v.clean);
      Complete(emitted, thought, text, reasoning, calls);
    }

    /** When all that was emitted is the final text: without tools the client has exactly that, and
        with tools it has the text that is meant exactly if what the gate sent is a prefix of it. */
    lemma HasItAllIff(emitted: bytes, thought: bytes, reasoning: bytes, calls: nat)
      requires Served(emitted, thought, Meant(emitted), reasoning, calls)
      ensures ContentOf(sse.events) == Meant(emitted) <==> !gated || Gate(emitted).sent <= Meant(emitted)
    {
      hide ContentOf, ReasoningOf, Gate, Strip, TrimSpace;
    }

    /** The same up to trimming, for a text with all its fences on lines of their own. */
    lemma HasItAllUpToTrimmingIff(fs: seq<Fence>, tail: Tail, thought: bytes, reasoning: bytes, calls: nat)
      requires gated && WellFenced(fs, tail)
      requires Served(Render(fs, tail), thought, Meant(Render(fs, tail)), reasoning, calls)
      ensures var g, meant := Gate(Render(fs, tail)), Meant(Render(fs, tail));
              TrimSpace(ContentOf(sse.events)) == meant <==> Pending(g) == [] || SpaceLen(g.sent) == 0
    {
      hide ContentOf, ReasoningOf, Gate, Strip, TrimSpace, WellFenced, Pending, SpaceLen, RemainingOf;
      var t := Render(fs, tail);
      TailIsLostIff(fs, tail);
      RemainingCompletes(TrimSpace(Strip(t)), Gate(t).sent);
    }
  }

  lemma NothingHeard()
    ensures Gate([]).sent == [] && ContentOf([]) == [] && ReasoningOf([]) == []
  {
    hide Gate;
    EmptyText();
  }

  lemma NoCallbacks()
    ensures Retry.TextOf([]) == [] && Retry.ThoughtOf([]) == []
  {
  }

  lemma OneCallback(log: Retry.Log, n: nat)
    requires n < |log|
    ensures Retry.TextOf(log[..n + 1]) ==
            if log[n].Delta? then Retry.TextOf(log[..n]) + log[n].text else Retry.TextOf(log[..n])
    ensures Retry.ThoughtOf(log[..n + 1]) ==
            if log[n].Thought? then Retry.ThoughtOf(log[..n]) + log[n].text else Retry.ThoughtOf(log[..n])
  {
    assert log[..n + 1][..n] == log[..n];
    assert Retry.TextOf(log[..n]) + [] == Retry.TextOf(log[..n])
      && Retry.ThoughtOf(log[..n]) + [] == Retry.ThoughtOf(log[..n]);
  }
}
