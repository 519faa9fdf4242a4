/** The retry loop as the service runs it, with the effects it has on accounts and proxies. */
module RetryLoops {
  import opened Bytes
  import opened Text
  import opened Delivery
  import opened CookieMerge
  import opened Proxies
  import opened Accounts
  import opened Retry

  datatype Outcome = Replied(index: nat) | GaveUp(error: string) | NeverSent

  /** All texts, or all thoughts, of the first `n` replies. */
  function Seen(up: Upstream, n: nat, of: seq<Frame> -> seq<bytes>): seq<bytes> {
    if n == 0 then [] else Seen(up, n - 1, of) + of(up(n - 1).frames)
  }

  lemma SeenMore(up: Upstream, n: nat, of: seq<Frame> -> seq<bytes>, clean: bytes -> bytes)
    ensures EmittedAfter([], Seen(up, n + 1, of), clean)
         == EmittedAfter(EmittedAfter([], Seen(up, n, of), clean), of(up(n).frames), clean)
  {
    EmittedAfterConcat([], Seen(up, n, of), of(up(n).frames), clean);
  }

  predicate Good(reply: Reply) {
    !reply.broken && reply.status == 200 && reply.content
  }

  predicate XsrfRejected(reply: Reply) {
    !reply.broken && reply.status == 400 && reply.xsrf
  }

  ghost predicate Unrejected(up: Upstream, n: nat) {
    forall j :: 0 <= j < n ==> !XsrfRejected(up(j))
  }

  /** Which of the first `n` replies is healed, or -1. */
  ghost function HealIndex(up: Upstream, n: nat, cookied: bool): (h: int)
    ensures -1 <= h < n
  {
    if n == 0 then -1
    else
      var before := HealIndex(up, n - 1, cookied);
      if before >= 0 then before
      else if cookied && Unrejected(up, n - 1) && XsrfRejected(up(n - 1)) && up(n - 1).refetch then n - 1
      else -1
  }

  /** A request is healed after the first reply that rejects its token, if it has a cookie and a
      new token can be had, and after no other reply. */
  lemma {:induction false} HealsTheFirstRejection(up: Upstream, n: nat, cookied: bool, h: nat)
    ensures HealIndex(up, n, cookied) == h
       <==> cookied && h < n && XsrfRejected(up(h)) && up(h).refetch && Unrejected(up, h)
  {
    if n > 0 {
      HealsTheFirstRejection(up, n - 1, cookied, h);
      var before := HealIndex(up, n - 1, cookied);
      if before >= 0 { HealsTheFirstRejection(up, n - 1, cookied, before); }
    }
  }

  /** The status that counts for the health of the account when no reply was good: that of the
      last complete reply that was not healed, or 0. */
  ghost function LastStatus(up: Upstream, n: nat, cookied: bool): int {
    if n == 0 then 0
    else if HealIndex(up, n, cookied) != n - 1 && !up(n - 1).broken && up(n - 1).status != 200 then up(n - 1).status
    else LastStatus(up, n - 1, cookied)
  }

  /** What an event may say after `n` requests: it is about the last reply, which is either healed or
      judged, with its own error and its own clock. */
  ghost predicate TellsOfReply(e: Retry.Event, up: Upstream, n: nat, cookied: bool) {
    match e
    case Verdict(success, error, at) =>
      && n > 0 && at == up(n - 1).at && HealIndex(up, n, cookied) != n - 1
      && (success <==> Good(up(n - 1))) && error == if success then "" else up(n - 1).error
    case Healed => n > 0 && HealIndex(up, n, cookied) == n - 1
    case Saved(_, guardReads) => n > 0 && cookied && guardReads == up(n - 1).guardReads
    case Marked(_, at) => n > 0 && at == up(n - 1).at
    case _ => true
  }

  /** Every event of a log is about the reply to the last request before it. */
  ghost predicate Truthful(log: Log, up: Upstream, cookied: bool) {
    forall i :: 0 <= i < |log| ==> TellsOfReply(log[i], up, Count(log[..i], IsSent), cookied)
  }

  lemma NextIsTruthful(log: Log, e: Retry.Event, up: Upstream, cookied: bool)
    requires Truthful(log, up, cookied) && TellsOfReply(e, up, Count(log, IsSent), cookied)
    ensures Truthful(log + [e], up, cookied)
  {
    hide Count, TellsOfReply;
    var all := log + [e];
    assert all[..|log|] == log;
    forall i | 0 <= i < |all|
      ensures TellsOfReply(all[i], up, Count(all[..i], IsSent), cookied)
    {
      if i < |log| { assert all[..i] == log[..i]; }
    }
  }

  /** What is called back leaves a log truthful. */
  lemma OutputIsTruthful(log: Log, more: Log, up: Upstream, cookied: bool)
    requires Truthful(log, up, cookied) && forall e :: e in more ==> e.Delta? || e.Thought? || e.Sent?
    ensures Truthful(log + more, up, cookied)
  {
    hide Count, HealIndex, Good;
    var all := log + more;
    forall i | 0 <= i < |all|
      ensures TellsOfReply(all[i], up, Count(all[..i], IsSent), cookied)
    {
      if i < |log| {
        assert all[..i] == log[..i];
      } else {
        assert all[i] in more;
      }
    }
  }

  /** A reply that is taken in leaves a log truthful: its callbacks, and the cookie that it changed. */
  lemma TakenIsTruthful(log: Log, echoes: Log, cookie: string, changed: bool, up: Upstream, n: nat, cookied: bool)
    requires Truthful(log, up, cookied) && forall e :: e in echoes ==> e.Delta? || e.Thought?
    requires Count(log + [Sent] + echoes, IsSent) == n + 1 && (changed ==> cookied)
    ensures Truthful(log + [Sent] + echoes + (if changed then [Saved(cookie, up(n).guardReads)] else []), up, cookied)
  {
    hide Count, Truthful;
    var heard := log + [Sent] + echoes;
    assert heard == log + ([Sent] + echoes) && heard + [] == heard;
    OutputIsTruthful(log, [Sent] + echoes, up, cookied);
    if changed { NextIsTruthful(heard, Saved(cookie, up(n).guardReads), up, cookied); }
  }

  function ResultOf(reply: Reply): Change {
    if Good(reply) then Succeeded(reply.at) else Failed(reply.at, reply.error)
  }

  /** What the first `n` replies mean for the proxy: each one that is not healed has its result. */
  ghost function ResultsOf(up: Upstream, n: nat, cookied: bool, id: int): seq<PoolStep> {
    if n == 0 then []
    else
      ResultsOf(up, n - 1, cookied, id)
      + if HealIndex(up, n, cookied) == n - 1 then [] else [Record(id, ResultOf(up(n - 1)))]
  }

  /** The results that a truthful log records are those of its replies, in order, none twice and none
      left out but for the reply that is still waiting. */
  lemma {:induction false} ResultsAreOfReplies(log: Log, up: Upstream, cookied: bool, id: int)
    requires Truthful(log, up, cookied) && Alternates(log)
    ensures Count(log, IsSent) >= Pending(log) >= 0
    ensures ProxySteps(log, id) == ResultsOf(up, Count(log, IsSent) - Pending(log), cookied, id)
  {
    hide Count, HealIndex, Good, TextOf, ThoughtOf, NoResend, ProxySteps, Truthful, TellsOfReply, ResultsOf, Alternates;
    if log == [] {
      NothingIsJudged(up, cookied, id);
    } else {
      var t, e := Init(log), Final(log);
      assert log == t + [e];
      ShorterIsTruthful(log, up, cookied);
      ShorterAlternates(log);
      ResultsAreOfReplies(t, up, cookied, id);
      Append(t, e, id);
      LastResult(log, up, Count(t, IsSent), cookied, id);
    }
  }

  lemma NothingIsJudged(up: Upstream, cookied: bool, id: int)
    ensures Count([], IsSent) == Pending([]) == 0 && ProxySteps([], id) == ResultsOf(up, 0, cookied, id)
  {
  }

  lemma LastResult(log: Log, up: Upstream, n: nat, cookied: bool, id: int)
    requires log != [] && TellsOfReply(Final(log), up, n, cookied)
    ensures var before, after := ProxySteps(Init(log), id), ProxySteps(log, id);
            if Final(log).Verdict? || Final(log).Healed?
            then n > 0 && (before == ResultsOf(up, n - 1, cookied, id) ==> after == ResultsOf(up, n, cookied, id))
            else after == before
  {
    hide HealIndex, Good;
    assert ProxySteps(Init(log), id) + [] == ProxySteps(Init(log), id);
  }

  lemma ShorterAlternates(log: Log)
    requires Alternates(log) && log != []
    ensures Alternates(Init(log))
    ensures Final(log).Marked? || Pending(Init(log)) == if Final(log).Sent? then 0 else 1
  {
    hide Count;
  }

  lemma ShorterIsTruthful(log: Log, up: Upstream, cookied: bool)
    requires Truthful(log, up, cookied) && log != []
    ensures Truthful(Init(log), up, cookied) && TellsOfReply(Final(log), up, Count(Init(log), IsSent), cookied)
  {
    hide Count, TellsOfReply;
    assert forall i :: 0 <= i < |log| - 1 ==> Init(log)[..i] == log[..i];
  }

  /** A whole request: at most one more than `retries` are sent, and that one only after the single
      healing; every other is judged once. It ends at the first good reply, which alone is a
      success; it gives up only when something was said already or all attempts are used. The
      account gets one health write, with the status of the reply that decides. Each verdict has the
      error and the clock of its own reply. */
  ghost predicate SoundLog(log: Log, retries: int, up: Upstream, cookied: bool, outcome: Outcome) {
    var n := Count(log, IsSent);
    && (forall i :: 0 <= i < n && Good(up(i)) ==> outcome == Replied(i))
    && Count(log, IsHealed) == (if HealIndex(up, n, cookied) >= 0 then 1 else 0)
    && (outcome.GaveUp? ==> n > 0 && outcome.error == up(n - 1).error
                            && (Output(log) || Count(log, IsVerdict) == retries))
    && (!outcome.NeverSent? ==>
          log != [] && Final(log).Marked?
          && Final(log).status == if outcome.Replied? then 200 else LastStatus(up, n, cookied))
    && Alternates(log) && NoResend(log) && Pending(log) == 0 && Truthful(log, up, cookied)
    && Count(log, IsHealed) <= 1
    && n <= (if retries > 0 then retries else 0) + Count(log, IsHealed)
    && Count(log, IsSuccess) == (if outcome.Replied? then 1 else 0)
    && Count(log, IsMark) == (if outcome.NeverSent? then 0 else 1)
    && (outcome.NeverSent? <==> retries <= 0)
    && (outcome.Replied? ==> outcome.index == n - 1 && Good(up(n - 1)))
  }

  /** Counted in numbers: requests, verdicts, and what may follow output. */
  lemma RequestBudget(log: Log, retries: nat, up: Upstream, cookied: bool, outcome: Outcome, i: nat, j: nat)
    requires SoundLog(log, retries, up, cookied, outcome)
    ensures Count(log, IsSent) <= retries + 1
    ensures Count(log, IsVerdict) == Count(log, IsSent) - Count(log, IsHealed) <= retries
    ensures i < j < |log| && log[i] == Sent && log[j] == Sent ==> !Output(log[..i])
    ensures i < |log| && log[i] == Sent && Output(log[..i]) ==> i > 0 && log[i - 1] == Healed
    ensures i <= |log| ==> 0 <= Pending(log[..i]) <= 1
  {
    hide Count, Output, NoResend, Alternates, HealIndex, LastStatus;
    if i < j < |log| && log[i] == Sent && log[j] == Sent { OneRequestAfterOutput(log, i, j); }
    if i < |log| && log[i] == Sent && Output(log[..i]) { ResendOnlyAfterHealing(log, i); }
    if i <= |log| { OneRequestAtATime(log, i); }
  }

  /** What one reply does to the cookie of a request that runs under an account. */
  ghost predicate Refreshes(before: string, reply: Reply, own: bool, after: string) {
    if reply.setCookie == [] || !own then after == before
    else exists extra :: Merged(before, reply.setCookie, extra, after)
  }

  /** The cookie after the first `n` replies. */
  ghost predicate RefreshedBy(up: Upstream, n: nat, own: bool, before: string, after: string) {
    if n == 0 then after == before
    else
      var k, reply := n - 1, up(n - 1);
      exists mid :: RefreshedBy(up, k, own, before, mid) && Refreshes(mid, reply, own, after)
  }

  lemma RefreshedByNext(up: Upstream, n: nat, own: bool, before: string, mid: string, after: string)
    requires RefreshedBy(up, n, own, before, mid) && Refreshes(mid, up(n), own, after)
    ensures RefreshedBy(up, n + 1, own, before, after)
  {
    hide Refreshes;
  }

  /** What the log tells of the content of all replies: the output is what their frames emit, and the
      cookie that was saved last is the merge of all that they set. */
  ghost predicate Repeats(log: Log, up: Upstream, cookied: bool, v: Voices, cookie: string) {
    var n := Count(log, IsSent);
    && TextOf(log) == (if v.wantText then EmittedAfter([], Seen(up, n, TextsOf), v.clean) else [])
    && ThoughtOf(log) == (if v.wantThought then EmittedAfter([], Seen(up, n, ThoughtsOf), v.clean) else [])
    && RefreshedBy(up, n, cookied, cookie, LastSaved(log, cookie))
  }

  /** What the loop knows after `n` replies of which `attempt` were failures: `healed` is whether a
      token was rejected already, `status` and `error` are those of the last failures, and `at` is
      the clock of the last reply. */
  ghost predicate Known(up: Upstream, retries: int, own: bool, n: nat, attempt: nat, healed: bool, status: int,
                        error: Option<string>, at: int) {
    && n == attempt + (if HealIndex(up, n, own) >= 0 then 1 else 0)
    && attempt <= (if retries > 0 then retries else 0)
    && (healed <==> own && !Unrejected(up, n))
    && (forall i :: 0 <= i < n ==> !Good(up(i)))
    && status == LastStatus(up, n, own)
    && (error.Some? <==> attempt > 0) && (n > 0 ==> at == up(n - 1).at)
    && (n > 0 ==> if HealIndex(up, n, own) == n - 1 then attempt < retries else error == Some(up(n - 1).error))
  }

  lemma KnownAfterFailure(up: Upstream, retries: int, own: bool, n: nat, attempt: nat, healed: bool, status: int,
                          error: Option<string>, at: int)
    requires Known(up, retries, own, n, attempt, healed, status, error, at) && attempt < retries
    requires !Good(up(n)) && !(own && !healed && XsrfRejected(up(n)) && up(n).refetch)
    ensures Known(up, retries, own, n + 1, attempt + 1, healed || (own && XsrfRejected(up(n))),
                  if !up(n).broken && up(n).status != 200 then up(n).status else status, Some(up(n).error),
                  up(n).at)
    ensures HealIndex(up, n + 1, own) != n
    ensures TellsOfReply(Verdict(false, up(n).error, up(n).at), up, n + 1, own)
  {
  }

  lemma KnownAfterHealing(up: Upstream, retries: int, own: bool, n: nat, attempt: nat, status: int,
                          error: Option<string>, at: int)
    requires Known(up, retries, own, n, attempt, false, status, error, at) && attempt < retries
    requires own && XsrfRejected(up(n)) && up(n).refetch
    ensures Known(up, retries, own, n + 1, attempt, true, status, error, up(n).at)
    ensures TellsOfReply(Healed, up, n + 1, own)
  {
    var before := HealIndex(up, n, own);
    if before >= 0 { HealsTheFirstRejection(up, n, own, before); }
  }

  lemma KnownAtFirst(up: Upstream, retries: int, own: bool, cookie: string)
    ensures Known(up, retries, own, 0, 0, false, 0, None, 0) && RefreshedBy(up, 0, own, cookie, cookie)
  {
  }

  class Conversation {
    const cookieId: int   // the account the request runs under, or 0
    const pickedId: int   // the pooled proxy it goes through, or 0
    const voices: Voices
    const tracker: DeltaTracker
    const rtracker: DeltaTracker
    const accounts: AccountStore
    const proxies: ProxyStore
    var cookie: string
    var log: Log
    ghost const rows0: Rows
    ghost const pool0: Pool
    ghost const cookie0: string

    constructor (cookieId: int, cookie: string, pickedId: int, voices: Voices,
                 accounts: AccountStore, proxies: ProxyStore)
      requires cookieId > 0 <==> cookie != ""
      ensures this.cookieId == cookieId && this.cookie == cookie && this.pickedId == pickedId
      ensures this.voices == voices
      ensures this.accounts == accounts && this.proxies == proxies
      ensures rows0 == accounts.rows && pool0 == proxies.State() && cookie0 == cookie
      ensures fresh(tracker) && fresh(rtracker)
      ensures log == [] && Consistent() && tracker.emitted == [] && rtracker.emitted == []
    {
      this.cookieId, this.cookie, this.pickedId := cookieId, cookie, pickedId;
      this.voices := voices;
      this.accounts, this.proxies := accounts, proxies;
      rows0, pool0, cookie0 := accounts.rows, proxies.State(), cookie;
      tracker := new DeltaTracker();
      rtracker := new DeltaTracker();
      log := [];
    }

    /** The log tells exactly what was emitted and what was written. */
    ghost predicate Consistent()
      reads this, tracker, rtracker, accounts, proxies
    {
      && tracker != rtracker
      && TextOf(log) == tracker.emitted && ThoughtOf(log) == rtracker.emitted
      && accounts.rows == Accounts.Run(rows0, AccountSteps(log, cookieId))
      && proxies.State() == (if pickedId > 0 then Proxies.Run(pool0, ProxySteps(log, pickedId)) else pool0)
      && Alternates(log) && NoResend(log)
      && (cookieId > 0 <==> cookie != "") && cookie == LastSaved(log, cookie0)
    }

    /** What was called back is what the frames of the first `n` replies emit. */
    ghost predicate Heeded(up: Upstream, n: nat)
      reads tracker, rtracker
    {
      && tracker.emitted == (if voices.wantText then EmittedAfter([], Seen(up, n, TextsOf), voices.clean) else [])
      && rtracker.emitted == (if voices.wantThought then EmittedAfter([], Seen(up, n, ThoughtsOf), voices.clean)
                              else [])
    }

    method Add(e: Retry.Event)
      modifies this`log
      ensures log == old(log) + [e]
    {
      log := log + [e];
    }

    /** Sends the request and listens to the reply. */
    method SendOnce(reply: Reply)
      requires Consistent() && Pending(log) == 0
      requires Output(log) ==> log != [] && Final(log) == Healed
      modifies this`log, tracker, rtracker
      ensures Consistent() && Pending(log) == 1
      ensures Count(log, IsSent) == old(Count(log, IsSent)) + 1
      ensures Count(log, IsHealed) == old(Count(log, IsHealed)) && Count(log, IsMark) == old(Count(log, IsMark))
      ensures Count(log, IsSuccess) == old(Count(log, IsSuccess))
      ensures log == old(log) + [Sent] + Echoes(voices, old(tracker.emitted), old(rtracker.emitted), reply.frames)
      ensures tracker.emitted == if voices.wantText
        then EmittedAfter(old(tracker.emitted), TextsOf(reply.frames), voices.clean)
                                 else old(tracker.emitted)
      ensures rtracker.emitted == if voices.wantThought
                                  then EmittedAfter(old(rtracker.emitted), ThoughtsOf(reply.frames), voices.clean)
                                  else old(rtracker.emitted)
    {
      hide Count, TextOf, ThoughtOf, Alternates, NoResend, AccountSteps, ProxySteps;
      hide LastSaved, Accounts.Run, Proxies.Run, Accounts.Apply, Proxies.Apply;
      Append(log, Sent, cookieId);
      AppendSteps(log, Sent, rows0, pool0, cookieId, pickedId, cookie0);
      Add(Sent);
      log := Listen(reply.frames, voices, tracker, rtracker, log);
    }

    /** Merges the cookies that the reply refreshes and writes a changed cookie back. */
    method KeepCookies(reply: Reply)
      requires Consistent() && Pending(log) == 1
      modifies this`log, this`cookie, accounts
      ensures Consistent() && Pending(log) == 1
      ensures Refreshes(old(cookie), reply, cookieId > 0, cookie) && (cookieId > 0 <==> cookie != "")
      ensures log == old(log) + if cookie == old(cookie) then [] else [Saved(cookie, reply.guardReads)]
      ensures cookie != old(cookie) ==> cookieId > 0
      ensures Count(log, IsSent) == old(Count(log, IsSent)) && Count(log, IsHealed) == old(Count(log, IsHealed))
      ensures Count(log, IsMark) == old(Count(log, IsMark)) && Count(log, IsSuccess) == old(Count(log, IsSuccess))
    {
      hide Count, TextOf, ThoughtOf, Alternates, NoResend, AccountSteps, ProxySteps;
      hide LastSaved, Accounts.Run, Proxies.Run, Accounts.Apply, Proxies.Apply, Merged;
      if reply.setCookie != [] && cookieId > 0 {
        var merged := MergeSetCookie(cookie, reply.setCookie);
        ghost var extra :| Merged(cookie, reply.setCookie, extra, merged);
        MergeKeepsNonEmpty(cookie, reply.setCookie, extra, merged);
        if merged != cookie {
          cookie := merged;
          Append(log, Saved(merged, reply.guardReads), cookieId);
          AppendSteps(log, Saved(merged, reply.guardReads), rows0, pool0, cookieId, pickedId, cookie0);
          Add(Saved(merged, reply.guardReads));
          accounts.UpdateAccountCookie(cookieId, merged, reply.guardReads);
        }
      }
    }

    /** The end of an attempt: the result goes to the proxy that was used, if one was. */
    method JudgeAttempt(success: bool, error: string, at: int)
      requires Consistent() && Pending(log) == 1
      modifies this`log, proxies
      ensures Consistent() && Pending(log) == 0 && log == old(log) + [Verdict(success, error, at)]
      ensures Output(log) <==> tracker.emitted != [] || rtracker.emitted != []
      ensures Count(log, IsSent) == old(Count(log, IsSent)) && Count(log, IsHealed) == old(Count(log, IsHealed))
      ensures Count(log, IsMark) == old(Count(log, IsMark))
      ensures Count(log, IsSuccess) == old(Count(log, IsSuccess)) + if success then 1 else 0
    {
      hide Count, TextOf, ThoughtOf, Alternates, NoResend, AccountSteps, ProxySteps;
      hide LastSaved, Accounts.Run, Proxies.Run, Accounts.Apply, Proxies.Apply;
      Append(log, Verdict(success, error, at), cookieId);
      AppendSteps(log, Verdict(success, error, at), rows0, pool0, cookieId, pickedId, cookie0);
      Add(Verdict(success, error, at));
      if pickedId > 0 {
        proxies.RecordProxyResult(pickedId, success, error, at);
      }
    }

    /** The log agrees with `n` replies, `attempt` of which were failures, and `waiting` of which
        are not judged yet. */
    ghost predicate InStep(up: Upstream, n: nat, attempt: nat, waiting: nat)
      reads this, tracker, rtracker
    {
      && n == Count(log, IsSent) == attempt + waiting + Count(log, IsHealed) && Truthful(log, up, cookieId > 0)
      && Pending(log) == waiting && Count(log, IsSuccess) == 0 && Count(log, IsMark) == 0
      && RefreshedBy(up, n, cookieId > 0, cookie0, cookie)
      && Heeded(up, n)
    }

    /** Sends request `n` and takes in its reply. */
    method TakeReply(up: Upstream, n: nat, ghost attempt: nat)
      requires Consistent() && InStep(up, n, attempt, 0)
      requires Output(log) ==> log != [] && Final(log) == Healed
      modifies this, tracker, rtracker, accounts
      ensures Consistent() && InStep(up, n + 1, attempt, 1)
      ensures cookieId > 0 <==> cookie != ""
    {
      hide Consistent, Count, Output, Refreshes, RefreshedBy, EmittedAfter, Seen, Truthful, Echoes;
      SeenMore(up, n, TextsOf, voices.clean);
      SeenMore(up, n, ThoughtsOf, voices.clean);
      ghost var start, echoes := log, Echoes(voices, tracker.emitted, rtracker.emitted, up(n).frames);
      EchoesAreOutput(voices, tracker.emitted, rtracker.emitted, up(n).frames);
      SendOnce(up(n));
      ghost var before := cookie;
      KeepCookies(up(n));
      TakenIsTruthful(start, echoes, cookie, cookie != before, up, n, cookieId > 0);
      RefreshedByNext(up, n, cookieId > 0, cookie0, before, cookie);
    }

    /** A failed attempt; says whether anything was emitted, so that it must not be repeated. */
    method FailAttempt(error: string, at: int, ghost up: Upstream, ghost n: nat, ghost attempt: nat)
        returns (spoken: bool)
      requires Consistent() && InStep(up, n, attempt, 1)
      requires TellsOfReply(Verdict(false, error, at), up, n, cookieId > 0)
      modifies this`log, proxies
      ensures Consistent() && InStep(up, n, attempt + 1, 0)
      ensures spoken == Output(log) && log != [] && Final(log) == Verdict(false, error, at)
    {
      hide Consistent, Count, Output, RefreshedBy, EmittedAfter, Seen, Truthful, TellsOfReply;
      NextIsTruthful(log, Verdict(false, error, at), up, cookieId > 0);
      JudgeAttempt(false, error, at);
      spoken := tracker.emitted != [] || rtracker.emitted != [];
    }

    method Heal(ghost up: Upstream, ghost n: nat, ghost attempt: nat)
      requires Consistent() && InStep(up, n, attempt, 1) && TellsOfReply(Healed, up, n, cookieId > 0)
      modifies this`log
      ensures Consistent() && InStep(up, n, attempt, 0) && log != [] && Final(log) == Healed
    {
      hide Count, TextOf, ThoughtOf, Alternates, NoResend, AccountSteps, ProxySteps, RefreshedBy, EmittedAfter, Seen;
      hide LastSaved, Accounts.Run, Proxies.Run, Accounts.Apply, Proxies.Apply, Truthful, TellsOfReply;
      NextIsTruthful(log, Healed, up, cookieId > 0);
      Append(log, Healed, cookieId);
      AppendSteps(log, Healed, rows0, pool0, cookieId, pickedId, cookie0);
      Add(Healed);
    }

    method MarkAccount(status: int, at: int)
      requires Consistent() && Pending(log) == 0
      modifies this`log, accounts
      ensures Consistent() && Pending(log) == 0
      ensures log == old(log) + [Marked(status, at)] && Output(log) == old(Output(log))
      ensures Count(log, IsSent) == old(Count(log, IsSent)) && Count(log, IsHealed) == old(Count(log, IsHealed))
      ensures Count(log, IsMark) == old(Count(log, IsMark)) + 1 && Count(log, IsSuccess) == old(Count(log, IsSuccess))
    {
      hide Count, TextOf, ThoughtOf, Alternates, NoResend, AccountSteps, ProxySteps;
      hide LastSaved, Accounts.Run, Proxies.Run, Accounts.Apply, Proxies.Apply;
      Append(log, Marked(status, at), cookieId);
      AppendSteps(log, Marked(status, at), rows0, pool0, cookieId, pickedId, cookie0);
      Add(Marked(status, at));
      accounts.MarkByStatus(cookieId, status, at);
    }

    lemma ConsistentLog(up: Upstream, n: nat)
      requires Consistent() && RefreshedBy(up, n, cookieId > 0, cookie0, cookie) && Heeded(up, n)
      requires n == Count(log, IsSent)
      ensures Alternates(log) && NoResend(log) && Repeats(log, up, cookieId > 0, voices, cookie0)
    {
      hide Count, TextOf, ThoughtOf, Alternates, NoResend, AccountSteps, ProxySteps, RefreshedBy, EmittedAfter, Seen;
      hide Accounts.Run, Proxies.Run, LastSaved;
    }

    /** What can be said after a whole request, for every sequence of replies. */
    ghost predicate Finished(retries: int, up: Upstream, outcome: Outcome)
      reads this, tracker, rtracker
    {
      && SoundLog(log, retries, up, cookieId > 0, outcome) && Repeats(log, up, cookieId > 0, voices, cookie0)
      && RefreshedBy(up, Count(log, IsSent), cookieId > 0, cookie0, cookie)
      && Heeded(up, Count(log, IsSent))
    }

    /** Everything but the health write is done. */
    ghost predicate Decided(retries: int, up: Upstream, outcome: Outcome, status: int, at: int)
      reads this, tracker, rtracker
    {
      var n := Count(log, IsSent);
      && Pending(log) == 0 && Count(log, IsMark) == 0 && Truthful(log, up, cookieId > 0)
      && (!outcome.NeverSent? ==> n > 0 && at == up(n - 1).at)
      && Count(log, IsHealed) == (if HealIndex(up, n, cookieId > 0) >= 0 then 1 else 0)
      && n <= (if retries > 0 then retries else 0) + Count(log, IsHealed)
      && Count(log, IsSuccess) == (if outcome.Replied? then 1 else 0)
      && (outcome.NeverSent? <==> retries <= 0)
      && (outcome.Replied? ==> outcome.index == n - 1 && Good(up(n - 1)))
      && (forall i :: 0 <= i < n && Good(up(i)) ==> outcome == Replied(i))
      && (outcome.GaveUp? ==> n > 0 && outcome.error == up(n - 1).error
                              && (Output(log) || n - Count(log, IsHealed) == retries))
      && status == (if outcome.Replied? then 200 else LastStatus(up, n, cookieId > 0))
      && RefreshedBy(up, n, cookieId > 0, cookie0, cookie)
      && Heeded(up, n)
    }

    /** Reports the health of the account, unless nothing was sent. */
    method Conclude(retries: int, up: Upstream, outcome: Outcome, status: int, at: int)
      requires Consistent() && Decided(retries, up, outcome, status, at)
      modifies this`log, accounts
      ensures Consistent() && Finished(retries, up, outcome)
    {
      hide Consistent, Count, EmittedAfter, Seen, HealIndex, LastStatus, RefreshedBy, TextOf, ThoughtOf, Truthful;
      hide Alternates, NoResend, Output, Good, Repeats;
      if !outcome.NeverSent? {
        NextIsTruthful(log, Marked(status, at), up, cookieId > 0);
        MarkAccount(status, at);
      }
      ConsistentLog(up, Count(log, IsSent));
    }

    lemma GivesUp(retries: int, up: Upstream, n: nat, attempt: nat, healed: bool, status: int, error: Option<string>,
                  at: int)
      requires InStep(up, n, attempt, 0) && Known(up, retries, cookieId > 0, n, attempt, healed, status, error, at)
      requires attempt >= retries || (Output(log) && n > 0 && HealIndex(up, n, cookieId > 0) != n - 1)
      ensures Decided(retries, up, if error.Some? then GaveUp(error.value) else NeverSent, status, at)
    {
      hide Count, RefreshedBy, EmittedAfter, Seen, HealIndex, LastStatus, TextOf, ThoughtOf, Truthful;
    }

    /** A good reply ends the request. */
    method Succeed(retries: int, up: Upstream, n: nat, ghost attempt: nat, ghost healed: bool, ghost status: int,
                   ghost error: Option<string>, ghost at: int) returns (outcome: Outcome)
      requires Consistent() && InStep(up, n + 1, attempt, 1) && Good(up(n)) && attempt < retries
      requires Known(up, retries, cookieId > 0, n, attempt, healed, status, error, at)
      modifies this`log, accounts, proxies
      ensures Consistent() && outcome == Replied(n) && Finished(retries, up, outcome)
    {
      hide Consistent, Count, RefreshedBy, EmittedAfter, Seen, LastStatus, TextOf, ThoughtOf, Finished, Truthful;
      NextIsTruthful(log, Verdict(true, "", up(n).at), up, cookieId > 0);
      JudgeAttempt(true, "", up(n).at);
      outcome := Replied(n);
      Conclude(retries, up, outcome, 200, up(n).at);
    }

    method RetryLoop(retries: int, up: Upstream) returns (outcome: Outcome)
      requires Consistent() && log == [] && cookie == cookie0 && tracker.emitted == [] && rtracker.emitted == []
      modifies this, tracker, rtracker, accounts, proxies
      ensures Consistent() && Finished(retries, up, outcome)
    {
      hide Consistent, Output, InStep, Finished, Decided, Known, HealIndex, LastStatus, Unrejected, Heeded,
           TellsOfReply;
      ghost var own := cookieId > 0;
      KnownAtFirst(up, retries, own, cookie);
      StartsInStep(up);
      var lastError: Option<string> := None;
      var lastStatus, at := 0, 0;
      var healed := false;
      var attempt, n := 0, 0;
      while attempt < retries
        invariant Consistent() && 0 <= attempt && InStep(up, n, attempt, 0)
        invariant Known(up, retries, own, n, attempt, healed, lastStatus, lastError, at)
        invariant Output(log) ==> log != [] && Final(log) == Healed
        decreases if healed then 0 else 1, retries - attempt
      {
        var reply := up(n);
        TakeReply(up, n, attempt);
        ghost var was := at;
        at := reply.at;
        if reply.broken {
          KnownAfterFailure(up, retries, own, n, attempt, healed, lastStatus, lastError, was);
          n := n + 1;
          lastError := Some(reply.error);
          var spoken := FailAttempt(reply.error, at, up, n, attempt);
          attempt := attempt + 1;
          if spoken {
            break;
          }
          continue;
        }
        if reply.status != 200 {
          ghost var healedBefore := healed;
          if reply.status == 400 && reply.xsrf && cookie != "" && !healed {
            healed := true;
            if reply.refetch {
              KnownAfterHealing(up, retries, own, n, attempt, lastStatus, lastError, was);
              n := n + 1;
              Heal(up, n, attempt);
              continue;
            }
          }
          KnownAfterFailure(up, retries, own, n, attempt, healedBefore, lastStatus, lastError, was);
          n := n + 1;
          lastError := Some(reply.error);
          lastStatus := reply.status;
          var spoken := FailAttempt(reply.error, at, up, n, attempt);
          attempt := attempt + 1;
          if spoken {
            break;
          }
          continue;
        }
        if !reply.content {
          KnownAfterFailure(up, retries, own, n, attempt, healed, lastStatus, lastError, was);
          n := n + 1;
          lastError := Some(reply.error);
          var spoken := FailAttempt(reply.error, at, up, n, attempt);
          attempt := attempt + 1;
          if spoken {
            break;
          }
          continue;
        }
        outcome := Succeed(retries, up, n, attempt, healed, lastStatus, lastError, was);
        return;
      }
      GivesUp(retries, up, n, attempt, healed, lastStatus, lastError, at);
      outcome := if lastError.Some? then GaveUp(lastError.value) else NeverSent;
      Conclude(retries, up, outcome, lastStatus, at);
    }

    lemma StartsInStep(up: Upstream)
      requires log == [] && cookie == cookie0 && tracker.emitted == [] && rtracker.emitted == []
      ensures InStep(up, 0, 0, 0) && !Output(log)
    {
      NothingYet(up, voices.clean);
      KnownAtFirst(up, 0, cookieId > 0, cookie);
    }
  }

  lemma NothingYet(up: Upstream, clean: bytes -> bytes)
    ensures EmittedAfter([], Seen(up, 0, TextsOf), clean) == [] == EmittedAfter([], Seen(up, 0, ThoughtsOf), clean)
      && !Output([])
    ensures TextOf([]) == [] && ThoughtOf([]) == []
    ensures Count([], IsSent) == Count([], IsHealed) == Count([], IsVerdict) == 0
    ensures Count([], IsSuccess) == Count([], IsMark) == 0
  {
  }
}
