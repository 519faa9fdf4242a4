/** The retry loop of one request, against any sequence of upstream replies. */
module Retry {
  import opened Bytes
  import opened Delivery
  import opened Proxies
  import opened Accounts

  // ---------- What upstream can do ----------

  /** One line of a streamed reply: a cumulative chain of thought and cumulative texts. */
  datatype Frame = Frame(thought: bytes, texts: seq<bytes>)

  /** One reply. `refetch` is whether a new token could be had after it, `guardReads` whether the
      account row could be read when cookies are written back, `at` the clock when it ended. */
  datatype Reply = Reply(frames: seq<Frame>, setCookie: seq<string>, guardReads: bool, broken: bool, status: int,
                         xsrf: bool, content: bool, refetch: bool, error: string, at: int)

  type Upstream = nat -> Reply

  // ---------- What the loop does ----------

  datatype Event =
    | Sent
    | Delta(text: bytes)
    | Thought(text: bytes)
    | Saved(cookie: string, guardReads: bool)
    | Healed
    | Verdict(success: bool, error: string, at: int)
    | Marked(status: int, at: int)

  type Log = seq<Event>

  function Init(t: Log): Log
    requires t != []
  {
    t[..|t| - 1]
  }

  function Final(t: Log): Event
    requires t != []
  {
    t[|t| - 1]
  }

  function Count(t: Log, p: Event -> bool): nat {
    if t == [] then 0 else Count(Init(t), p) + if p(Final(t)) then 1 else 0
  }

  const IsSent: Event -> bool := (e: Event) => e.Sent?
  const IsHealed: Event -> bool := (e: Event) => e.Healed?
  const IsVerdict: Event -> bool := (e: Event) => e.Verdict?
  const IsSuccess: Event -> bool := (e: Event) => e.Verdict? && e.success
  const IsMark: Event -> bool := (e: Event) => e.Marked?

  function TextOf(t: Log): bytes {
    if t == [] then [] else TextOf(Init(t)) + if Final(t).Delta? then Final(t).text else []
  }

  function ThoughtOf(t: Log): bytes {
    if t == [] then [] else ThoughtOf(Init(t)) + if Final(t).Thought? then Final(t).text else []
  }

  predicate Output(t: Log) {
    TextOf(t) != [] || ThoughtOf(t) != []
  }

  /** Requests that are not judged yet, neither by a verdict nor by a healing. */
  function Pending(t: Log): int {
    Count(t, IsSent) - Count(t, IsHealed) - Count(t, IsVerdict)
  }

  /** One request at a time, each judged once, and nothing between requests. */
  ghost predicate Alternates(t: Log) {
    t == [] ||
    (Alternates(Init(t)) &&
     (Final(t).Marked? || Pending(Init(t)) == if Final(t).Sent? then 0 else 1))
  }

  /** After output only a healing is followed by another request. */
  ghost predicate NoResend(t: Log) {
    t == [] ||
    (NoResend(Init(t)) &&
     (Final(t).Sent? && Output(Init(t)) ==> Init(t) != [] && Final(Init(t)) == Healed))
  }

  function AccountStepsOf(e: Event, id: int): seq<AccountStep> {
    match e
    case Saved(cookie, readOk) => [UpdateCookie(id, cookie, readOk)]
    case Marked(status, at) => [AccountStep.Mark(id, status, at)]
    case _ => []
  }

  /** The steps on the account row that the log stands for. */
  function AccountSteps(t: Log, id: int): seq<AccountStep> {
    if t == [] then [] else AccountSteps(Init(t), id) + AccountStepsOf(Final(t), id)
  }

  /** The results that the log records for the proxy. */
  function ProxySteps(t: Log, id: int): seq<PoolStep> {
    if t == [] then []
    else ProxySteps(Init(t), id) +
         (if Final(t).Verdict? then
            [Record(id, if Final(t).success then Succeeded(Final(t).at) else Failed(Final(t).at, Final(t).error))]
          else [])
  }

  /** The cookie that was saved last, or `cookie` if none was. */
  function LastSaved(t: Log, cookie: string): string {
    if t == [] then cookie else if Final(t).Saved? then Final(t).cookie else LastSaved(Init(t), cookie)
  }

  // ---------- Appending to a log ----------

  lemma Snoc(t: Log, e: Event)
    ensures Init(t + [e]) == t && Final(t + [e]) == e
  {
  }

  lemma {:induction false} AccountRunSnoc(rows: Rows, steps: seq<AccountStep>, step: AccountStep)
    ensures Accounts.Run(rows, steps + [step]) == Accounts.Apply(Accounts.Run(rows, steps), step)
    decreases |steps|
  {
    hide Accounts.Apply;
    if steps == [] {
      assert steps + [step] == [step] && [step][1..] == [];
      OneAccountStep(rows, step);
    } else {
      assert (steps + [step])[1..] == steps[1..] + [step];
      AccountRunSnoc(Accounts.Apply(rows, steps[0]), steps[1..], step);
    }
  }

  lemma OneAccountStep(rows: Rows, step: AccountStep)
    ensures Accounts.Run(rows, [step]) == Accounts.Apply(rows, step)
  {
    hide Accounts.Apply;
    assert [step][1..] == [];
  }

  lemma {:induction false} PoolRunSnoc(s: Pool, steps: seq<PoolStep>, step: PoolStep)
    ensures Proxies.Run(s, steps + [step]) == Proxies.Apply(Proxies.Run(s, steps), step)
    decreases |steps|
  {
    hide Proxies.Apply;
    if steps == [] {
      assert steps + [step] == [step] && [step][1..] == [];
      OnePoolStep(s, step);
    } else {
      assert (steps + [step])[1..] == steps[1..] + [step];
      PoolRunSnoc(Proxies.Apply(s, steps[0]), steps[1..], step);
    }
  }

  lemma OnePoolStep(s: Pool, step: PoolStep)
    ensures Proxies.Run(s, [step]) == Proxies.Apply(s, step)
  {
    hide Proxies.Apply;
    assert [step][1..] == [];
  }

  /** Everything about a log with one more event. */
  lemma Append(t: Log, e: Event, id: int)
    ensures var r := t + [e];
            && r != [] && Final(r) == e && Init(r) == t
            && Count(r, IsSent) == Count(t, IsSent) + (if e.Sent? then 1 else 0)
            && Count(r, IsHealed) == Count(t, IsHealed) + (if e.Healed? then 1 else 0)
            && Count(r, IsVerdict) == Count(t, IsVerdict) + (if e.Verdict? then 1 else 0)
            && Count(r, IsSuccess) == Count(t, IsSuccess) + (if e.Verdict? && e.success then 1 else 0)
            && Count(r, IsMark) == Count(t, IsMark) + (if e.Marked? then 1 else 0)
            && TextOf(r) == TextOf(t) + (if e.Delta? then e.text else [])
            && ThoughtOf(r) == ThoughtOf(t) + (if e.Thought? then e.text else [])
            && (Alternates(t) && (e.Marked? || Pending(t) == if e.Sent? then 0 else 1) ==> Alternates(r))
            && (NoResend(t) && (e.Sent? && Output(t) ==> t != [] && Final(t) == Healed) ==> NoResend(r))
  {
    Snoc(t, e);
  }

  lemma AppendSteps(t: Log, e: Event, rows: Rows, s: Pool, accountId: int, proxyId: int, cookie: string)
    ensures var r := t + [e];
            var before, after := Accounts.Run(rows, AccountSteps(t, accountId)),
              Accounts.Run(rows, AccountSteps(r, accountId));
            var was, now := Proxies.Run(s, ProxySteps(t, proxyId)), Proxies.Run(s, ProxySteps(r, proxyId));
            && (e.Saved? ==> after == Accounts.Apply(before, UpdateCookie(accountId, e.cookie, e.guardReads)))
            && (e.Marked? ==> after == Accounts.Apply(before, AccountStep.Mark(accountId, e.status, e.at)))
            && (!e.Saved? && !e.Marked? ==> after == before)
            && (e.Verdict? ==> now == Proxies.Apply(was,
                  Record(proxyId, if e.success then Succeeded(e.at) else Failed(e.at, e.error))))
            && (!e.Verdict? ==> now == was)
            && LastSaved(r, cookie) == (if e.Saved? then e.cookie else LastSaved(t, cookie))
  {
    hide Accounts.Apply, Proxies.Apply, Accounts.Run, Proxies.Run;
    Snoc(t, e);
    if e.Saved? {
      AccountRunSnoc(rows, AccountSteps(t, accountId), UpdateCookie(accountId, e.cookie, e.guardReads));
    } else if e.Marked? {
      AccountRunSnoc(rows, AccountSteps(t, accountId), AccountStep.Mark(accountId, e.status, e.at));
    }
    if e.Verdict? {
      PoolRunSnoc(s, ProxySteps(t, proxyId),
                  Record(proxyId, if e.success then Succeeded(e.at) else Failed(e.at, e.error)));
    }
    assert AccountSteps(t, accountId) + [] == AccountSteps(t, accountId);
    assert ProxySteps(t, proxyId) + [] == ProxySteps(t, proxyId);
  }

  // ---------- What such a log means ----------

  /** Nothing stands between output and another request but a healing. */
  lemma {:induction false} ResendOnlyAfterHealing(t: Log, i: nat)
    requires NoResend(t) && i < |t| && t[i] == Sent && Output(t[..i])
    ensures i > 0 && t[i - 1] == Healed
  {
    hide TextOf, ThoughtOf;
    if i < |t| - 1 {
      assert Init(t)[..i] == t[..i];
      ResendOnlyAfterHealing(Init(t), i);
    }
  }

  lemma {:induction false} CountAtLeast(t: Log, p: Event -> bool, i: nat)
    requires i < |t| && p(t[i])
    ensures Count(t, p) >= 1
  {
    if i < |t| - 1 { CountAtLeast(Init(t), p, i); }
  }

  lemma {:induction false} TwoCounted(t: Log, p: Event -> bool, i: nat, j: nat)
    requires i < j < |t| && p(t[i]) && p(t[j])
    ensures Count(t, p) >= 2
  {
    if j < |t| - 1 {
      TwoCounted(Init(t), p, i, j);
    } else {
      CountAtLeast(Init(t), p, i);
    }
  }

  lemma {:induction false} OutputStays(t: Log, i: nat, j: nat)
    requires i <= j <= |t| && Output(t[..i])
    ensures Output(t[..j])
    decreases j
  {
    hide TextOf, ThoughtOf;
    if i < j {
      assert t[..j][..j - 1] == t[..j - 1];
      OutputStays(t, i, j - 1);
      OutputGrows(t[..j]);
    }
  }

  lemma OutputGrows(t: Log)
    requires t != [] && Output(Init(t))
    ensures Output(t)
  {
  }

  /** With one healing at most, at most one request follows output. */
  lemma OneRequestAfterOutput(t: Log, i: nat, j: nat)
    requires NoResend(t) && Count(t, IsHealed) <= 1
    requires i < j < |t| && t[i] == Sent && t[j] == Sent
    ensures !Output(t[..i])
  {
    hide Count, Output, NoResend;
    if Output(t[..i]) {
      OutputStays(t, i, j);
      ResendOnlyAfterHealing(t, i);
      ResendOnlyAfterHealing(t, j);
      TwoCounted(t, IsHealed, i - 1, j - 1);
    }
  }

  /** At every point at most one request is not judged yet. */
  lemma {:induction false} OneRequestAtATime(t: Log, i: nat)
    requires Alternates(t) && i <= |t|
    ensures 0 <= Pending(t[..i]) <= 1
    decreases |t|
  {
    if i < |t| {
      assert Init(t)[..i] == t[..i];
      OneRequestAtATime(Init(t), i);
    } else {
      assert t[..i] == t;
      if t != [] {
        assert Init(t)[..|t| - 1] == Init(t);
        OneRequestAtATime(Init(t), |t| - 1);
      }
    }
  }

  // ---------- Listening to one reply ----------

  /** `r` is `t` with nothing but output added while a request was pending. */
  ghost predicate Heard(t: Log, r: Log) {
    && t <= r
    && (forall i :: |t| <= i < |r| ==> r[i].Delta? || r[i].Thought?)
    && Count(r, IsSent) == Count(t, IsSent) && Count(r, IsHealed) == Count(t, IsHealed)
    && Count(r, IsVerdict) == Count(t, IsVerdict) && Count(r, IsSuccess) == Count(t, IsSuccess)
    && Count(r, IsMark) == Count(t, IsMark)
    && (Alternates(t) && Pending(t) == 1 ==> Alternates(r))
    && (NoResend(t) ==> NoResend(r))
    && (forall id :: AccountSteps(r, id) == AccountSteps(t, id))
    && (forall id :: ProxySteps(r, id) == ProxySteps(t, id))
    && (forall cookie: string :: LastSaved(r, cookie) == LastSaved(t, cookie))
  }

  lemma HeardNothing(t: Log)
    ensures Heard(t, t)
  {
  }

  lemma HeardMore(t: Log, r: Log, e: Event)
    requires Heard(t, r) && (e.Delta? || e.Thought?)
    ensures Heard(t, r + [e])
    ensures TextOf(r + [e]) == TextOf(r) + (if e.Delta? then e.text else [])
    ensures ThoughtOf(r + [e]) == ThoughtOf(r) + (if e.Thought? then e.text else [])
  {
    hide Count, Alternates, NoResend, TextOf, ThoughtOf, AccountSteps, ProxySteps, LastSaved;
    Append(r, e, 0);
    forall cookie: string
      ensures LastSaved(r + [e], cookie) == LastSaved(r, cookie)
    {
      QuietSaves(r, e, cookie);
    }
    forall id
      ensures AccountSteps(r + [e], id) == AccountSteps(r, id) && ProxySteps(r + [e], id) == ProxySteps(r, id)
    {
      QuietSteps(r, e, id);
    }
  }

  lemma QuietSaves(r: Log, e: Event, cookie: string)
    requires e.Delta? || e.Thought?
    ensures LastSaved(r + [e], cookie) == LastSaved(r, cookie)
  {
    Snoc(r, e);
  }

  lemma QuietSteps(r: Log, e: Event, id: int)
    requires e.Delta? || e.Thought?
    ensures AccountSteps(r + [e], id) == AccountSteps(r, id) && ProxySteps(r + [e], id) == ProxySteps(r, id)
  {
    Snoc(r, e);
  }

  /** What is called back for the texts of one line. */
  function TextEchoes(emitted: bytes, texts: seq<bytes>, clean: bytes -> bytes): seq<Event>
    decreases |texts|
  {
    if texts == [] then []
    else
      var next := Extend(emitted, clean(texts[0]));
      (if next == emitted then [] else [Delta(next[|emitted|..])]) + TextEchoes(next, texts[1..], clean)
  }

  function ThoughtNext(thought: bytes, f: Frame, clean: bytes -> bytes): (r: bytes)
    ensures thought <= r
  {
    if f.thought != [] then Extend(thought, clean(f.thought)) else thought
  }

  function ThoughtEcho(thought: bytes, f: Frame, clean: bytes -> bytes): seq<Event> {
    var next := ThoughtNext(thought, f, clean);
    if next == thought then [] else [Thought(next[|thought|..])]
  }

  datatype Voices = Voices(wantText: bool, wantThought: bool, clean: bytes -> bytes)

  /** What is called back for one line. */
  function LineEchoes(v: Voices, text: bytes, thought: bytes, f: Frame): seq<Event> {
    (if v.wantThought then ThoughtEcho(thought, f, v.clean) else [])
    + (if v.wantText then TextEchoes(text, f.texts, v.clean) else [])
  }

  /** What is called back for all lines of a reply, in order. */
  function Echoes(v: Voices, text: bytes, thought: bytes, frames: seq<Frame>): seq<Event>
    decreases |frames|
  {
    if frames == [] then []
    else
      LineEchoes(v, text, thought, frames[0])
      + Echoes(v, if v.wantText then EmittedAfter(text, frames[0].texts, v.clean) else text,
               if v.wantThought then ThoughtNext(thought, frames[0], v.clean) else thought, frames[1..])
  }

  lemma {:induction false} EchoesAreOutput(v: Voices, text: bytes, thought: bytes, frames: seq<Frame>)
    ensures forall e :: e in Echoes(v, text, thought, frames) ==> e.Delta? || e.Thought?
    decreases |frames|
  {
    if frames != [] {
      TextsAreDeltas(text, frames[0].texts, v.clean);
      EchoesAreOutput(v, if v.wantText then EmittedAfter(text, frames[0].texts, v.clean) else text,
                      if v.wantThought then ThoughtNext(thought, frames[0], v.clean) else thought, frames[1..]);
    }
  }

  lemma {:induction false} TextsAreDeltas(emitted: bytes, texts: seq<bytes>, clean: bytes -> bytes)
    ensures forall e :: e in TextEchoes(emitted, texts, clean) ==> e.Delta?
    decreases |texts|
  {
    if texts != [] { TextsAreDeltas(Extend(emitted, clean(texts[0])), texts[1..], clean); }
  }

  /** Within a line the reasoning comes before the text. */
  lemma ReasoningFirst(v: Voices, text: bytes, thought: bytes, f: Frame, i: nat, j: nat)
    requires i < |LineEchoes(v, text, thought, f)| && LineEchoes(v, text, thought, f)[i].Thought?
    requires j < |LineEchoes(v, text, thought, f)| && LineEchoes(v, text, thought, f)[j].Delta?
    ensures i < j
  {
    TextsAreDeltas(text, f.texts, v.clean);
    var head := if v.wantThought then ThoughtEcho(thought, f, v.clean) else [];
    var rest := if v.wantText then TextEchoes(text, f.texts, v.clean) else [];
    assert |head| <= 1 && (|head| == 1 ==> head[0].Thought?);
    assert LineEchoes(v, text, thought, f) == head + rest;
    assert forall k :: 0 <= k < |rest| ==> rest[k] in rest && rest[k].Delta?;
  }

  function TextsOf(frames: seq<Frame>): seq<bytes> {
    if frames == [] then [] else frames[0].texts + TextsOf(frames[1..])
  }

  function ThoughtsOf(frames: seq<Frame>): seq<bytes> {
    if frames == [] then []
    else (if frames[0].thought != [] then [frames[0].thought] else []) + ThoughtsOf(frames[1..])
  }

  lemma {:induction false} EmittedAfterConcat(e: bytes, a: seq<bytes>, b: seq<bytes>, clean: bytes -> bytes)
    ensures EmittedAfter(e, a + b, clean) == EmittedAfter(EmittedAfter(e, a, clean), b, clean)
    decreases |a|
  {
    hide Extend;
    if a == [] {
      assert a + b == b;
    } else {
      assert (a + b)[1..] == a[1..] + b;
      EmittedAfterConcat(Extend(e, clean(a[0])), a[1..], b, clean);
    }
  }

  lemma ThoughtIsEmitted(thought: bytes, f: Frame, clean: bytes -> bytes)
    ensures EmittedAfter(thought, if f.thought != [] then [f.thought] else [], clean) == ThoughtNext(thought, f, clean)
  {
    hide Extend;
    assert [f.thought][1..] == [];
  }

  /** What a line adds to the output that all lines from it on lead to. */
  lemma EmittedByLine(frames: seq<Frame>, text: bytes, thought: bytes, clean: bytes -> bytes)
    requires frames != []
    ensures EmittedAfter(text, TextsOf(frames), clean)
         == EmittedAfter(EmittedAfter(text, frames[0].texts, clean), TextsOf(frames[1..]), clean)
    ensures EmittedAfter(thought, ThoughtsOf(frames), clean)
         == EmittedAfter(ThoughtNext(thought, frames[0], clean), ThoughtsOf(frames[1..]), clean)
  {
    hide EmittedAfter, ThoughtNext;
    var f := frames[0];
    EmittedAfterConcat(text, f.texts, TextsOf(frames[1..]), clean);
    EmittedAfterConcat(thought, if f.thought != [] then [f.thought] else [], ThoughtsOf(frames[1..]), clean);
    ThoughtIsEmitted(thought, f, clean);
  }

  /** The line callback, for all lines of one reply. */
  method Listen(frames: seq<Frame>, v: Voices, tracker: DeltaTracker, rtracker: DeltaTracker, log: Log) returns (r: Log)
    requires tracker != rtracker
    requires TextOf(log) == tracker.emitted && ThoughtOf(log) == rtracker.emitted
    modifies tracker, rtracker
    ensures Heard(log, r)
    ensures r == log + Echoes(v, old(tracker.emitted), old(rtracker.emitted), frames)
    ensures TextOf(r) == tracker.emitted && ThoughtOf(r) == rtracker.emitted
    ensures tracker.emitted == if v.wantText then EmittedAfter(old(tracker.emitted), TextsOf(frames), v.clean)
                               else old(tracker.emitted)
    ensures rtracker.emitted == if v.wantThought then EmittedAfter(old(rtracker.emitted), ThoughtsOf(frames), v.clean)
                                else old(rtracker.emitted)
  {
    hide Heard, TextOf, ThoughtOf, Extend, LineEchoes, ThoughtNext, ThoughtsOf, TextsOf, EmittedAfter;
    r := log;
    HeardNothing(log);
    ghost var text0, thought0 := tracker.emitted, rtracker.emitted;
    for n := 0 to |frames|
      invariant Heard(log, r)
      invariant r + Echoes(v, tracker.emitted, rtracker.emitted, frames[n..])
        == log + Echoes(v, text0, thought0, frames)
      invariant TextOf(r) == tracker.emitted && ThoughtOf(r) == rtracker.emitted
      invariant if v.wantText then EmittedAfter(tracker.emitted, TextsOf(frames[n..]), v.clean)
                                   == EmittedAfter(text0, TextsOf(frames), v.clean)
                else tracker.emitted == text0
      invariant if v.wantThought then EmittedAfter(rtracker.emitted, ThoughtsOf(frames[n..]), v.clean)
                                      == EmittedAfter(thought0, ThoughtsOf(frames), v.clean)
                else rtracker.emitted == thought0
    {
      assert frames[n..][0] == frames[n] && frames[n..][1..] == frames[n + 1..];
      EmittedByLine(frames[n..], tracker.emitted, rtracker.emitted, v.clean);
      ghost var before, line := r, LineEchoes(v, tracker.emitted, rtracker.emitted, frames[n]);
      r := ListenLine(frames[n], v, tracker, rtracker, log, r);
      ghost var later := Echoes(v, tracker.emitted, rtracker.emitted, frames[n + 1..]);
      assert before + (line + later) == r + later;
    }
    assert frames[|frames|..] == [];
    NoMore(text0, v.clean);
    NoMore(tracker.emitted, v.clean);
    NoMore(rtracker.emitted, v.clean);
    assert r + [] == r;
  }

  lemma NoMore(e: bytes, clean: bytes -> bytes)
    ensures EmittedAfter(e, TextsOf([]), clean) == e && EmittedAfter(e, ThoughtsOf([]), clean) == e
  {
  }

  /** The reasoning of a line first, so that the client has it before the text. */
  method ListenLine(f: Frame, v: Voices, tracker: DeltaTracker, rtracker: DeltaTracker, ghost start: Log, log: Log)
    returns (r: Log)
    requires tracker != rtracker && Heard(start, log)
    requires TextOf(log) == tracker.emitted && ThoughtOf(log) == rtracker.emitted
    modifies tracker, rtracker
    ensures Heard(start, r) && r == log + LineEchoes(v, old(tracker.emitted), old(rtracker.emitted), f)
    ensures TextOf(r) == tracker.emitted && ThoughtOf(r) == rtracker.emitted
    ensures tracker.emitted == if v.wantText then EmittedAfter(old(tracker.emitted), f.texts, v.clean)
      else old(tracker.emitted)
    ensures rtracker.emitted == if v.wantThought then ThoughtNext(old(rtracker.emitted), f, v.clean)
                                else old(rtracker.emitted)
  {
    hide Heard, TextOf, ThoughtOf, Extend, EmittedAfter, TextEchoes;
    r := log;
    if v.wantThought && f.thought != [] {
      var d := rtracker.Push(f.thought, v.clean);
      if d != [] {
        HeardMore(start, r, Thought(d));
        r := r + [Thought(d)];
      }
    }
    if v.wantText {
      r := ListenTexts(f.texts, v.clean, tracker, start, r);
    }
  }

  method ListenTexts(texts: seq<bytes>, clean: bytes -> bytes, tracker: DeltaTracker, ghost start: Log, log: Log)
    returns (r: Log)
    requires Heard(start, log) && TextOf(log) == tracker.emitted
    modifies tracker
    ensures Heard(start, r) && TextOf(r) == tracker.emitted && ThoughtOf(r) == ThoughtOf(log)
    ensures r == log + TextEchoes(old(tracker.emitted), texts, clean)
    ensures tracker.emitted == EmittedAfter(old(tracker.emitted), texts, clean)
  {
    hide Heard, TextOf, ThoughtOf, Extend;
    r := log;
    ghost var text0 := tracker.emitted;
    for n := 0 to |texts|
      invariant Heard(start, r) && TextOf(r) == tracker.emitted && ThoughtOf(r) == ThoughtOf(log)
      invariant r + TextEchoes(tracker.emitted, texts[n..], clean) == log + TextEchoes(text0, texts, clean)
      invariant EmittedAfter(tracker.emitted, texts[n..], clean) == EmittedAfter(text0, texts, clean)
    {
      assert texts[n..][0] == texts[n] && texts[n..][1..] == texts[n + 1..];
      ghost var before, echo := r, TextEchoes(tracker.emitted, texts[n..], clean);
      var d := tracker.Push(texts[n], clean);
      if d != [] {
        HeardMore(start, r, Delta(d));
        r := r + [Delta(d)];
      }
      assert before + echo == r + TextEchoes(tracker.emitted, texts[n + 1..], clean);
    }
    assert texts[|texts|..] == [];
    assert r + [] == r;
  }
}
