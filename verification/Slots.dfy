/** One egress slot: an in-flight counter and two sliding windows of grant times. */
module Slots {
  // A limit that is not positive is switched off.
  datatype Limits = Limits(concurrent: int, rpm: int, rph: int)

  datatype Slot = Slot(inflight: nat, minuteWin: seq<int>, hourWin: seq<int>)

  datatype Verdict = Granted | Concurrent | Rpm | Rph

  const MINUTE := 60
  const HOUR := 3600
  const EMPTY := Slot(0, [], [])

  // ---------- Pruning ----------

  /** How many times at the front are before the cutoff. */
  function Stale(ts: seq<int>, cutoff: int): (n: nat)
    ensures n <= |ts| && (n < |ts| ==> ts[n] >= cutoff)
    ensures forall i :: 0 <= i < n ==> ts[i] < cutoff
  {
    if ts != [] && ts[0] < cutoff then 1 + Stale(ts[1..], cutoff) else 0
  }

  lemma StaleIs(ts: seq<int>, cutoff: int, n: int)
    requires 0 <= n <= |ts| && (n < |ts| ==> ts[n] >= cutoff)
    requires forall i :: 0 <= i < n ==> ts[i] < cutoff
    ensures Stale(ts, cutoff) == n
  {
    hide Stale;
  }

  function Prune(ts: seq<int>, cutoff: int): seq<int> {
    ts[Stale(ts, cutoff)..]
  }

  method PruneTimestamps(ts: seq<int>, cutoff: int) returns (r: seq<int>)
    ensures r == Prune(ts, cutoff)
  {
    hide Stale;
    var i := 0;
    while i < |ts| && ts[i] < cutoff
      invariant 0 <= i <= |ts|
      invariant forall j :: 0 <= j < i ==> ts[j] < cutoff
    {
      i := i + 1;
    }
    StaleIs(ts, cutoff, i);
    if i == 0 {
      return ts;
    }
    return ts[i..];
  }

  ghost predicate Sorted(ts: seq<int>) {
    forall i, j :: 0 <= i <= j < |ts| ==> ts[i] <= ts[j]
  }

  function AtLeast(ts: seq<int>, cutoff: int): seq<int> {
    if ts == [] then []
    else (if ts[0] >= cutoff then [ts[0]] else []) + AtLeast(ts[1..], cutoff)
  }

  lemma {:induction false} AtLeastOfAll(ts: seq<int>, cutoff: int)
    requires forall i :: 0 <= i < |ts| ==> ts[i] >= cutoff
    ensures AtLeast(ts, cutoff) == ts
  {
    if ts != [] {
      AtLeastOfAll(ts[1..], cutoff);
    }
  }

  lemma {:induction false} AtLeastDrop(ts: seq<int>, cutoff: int, n: nat)
    requires n <= |ts| && forall i :: 0 <= i < n ==> ts[i] < cutoff
    ensures AtLeast(ts, cutoff) == AtLeast(ts[n..], cutoff)
  {
    if n > 0 {
      AtLeastDrop(ts[1..], cutoff, n - 1);
      assert ts[1..][n - 1..] == ts[n..];
    }
  }

  /** On times in order, cutting off a prefix is the same as filtering. */
  lemma PruneIsFilter(ts: seq<int>, cutoff: int)
    requires Sorted(ts)
    ensures Prune(ts, cutoff) == AtLeast(ts, cutoff)
  {
    hide Stale, AtLeast;
    AtLeastDrop(ts, cutoff, Stale(ts, cutoff));
    AtLeastOfAll(Prune(ts, cutoff), cutoff);
  }

  /** A later cutoff makes an earlier one redundant. */
  lemma PruneTwice(ts: seq<int>, early: int, late: int)
    requires early <= late
    ensures Prune(Prune(ts, early), late) == Prune(ts, late)
  {
    hide Stale;
    var n := Stale(ts, early);
    var m := Stale(ts[n..], late);
    assert m < |ts[n..]| ==> ts[n + m] == ts[n..][m];
    forall i | n <= i < n + m
      ensures ts[i] < late
    {
      assert ts[i] == ts[n..][i - n];
    }
    StaleIs(ts, late, n + m);
  }

  lemma PruneSnoc(ts: seq<int>, t: int, cutoff: int)
    requires t >= cutoff
    ensures Prune(ts + [t], cutoff) == Prune(ts, cutoff) + [t]
  {
    hide Stale;
    StaleIs(ts + [t], cutoff, Stale(ts, cutoff));
  }

  // ---------- Operations ----------

  function Refresh(s: Slot, now: int): Slot {
    Slot(s.inflight, Prune(s.minuteWin, now - MINUTE), Prune(s.hourWin, now - HOUR))
  }

  function Judge(s: Slot, lim: Limits): Verdict {
    if lim.concurrent > 0 && s.inflight >= lim.concurrent then Concurrent
    else if lim.rpm > 0 && |s.minuteWin| >= lim.rpm then Rpm
    else if lim.rph > 0 && |s.hourWin| >= lim.rph then Rph
    else Granted
  }

  function Grant(s: Slot, now: int): Slot {
    Slot(s.inflight + 1, s.minuteWin + [now], s.hourWin + [now])
  }

  function Verdicts(s: Slot, now: int, lim: Limits): Verdict {
    Judge(Refresh(s, now), lim)
  }

  function Try(s: Slot, now: int, lim: Limits): Slot {
    var r := Refresh(s, now);
    if Judge(r, lim) == Granted then Grant(r, now) else r
  }

  function Release(s: Slot): Slot {
    if s.inflight > 0 then s.(inflight := s.inflight - 1) else s
  }

  lemma RefreshTwice(s: Slot, now: int)
    ensures Refresh(Refresh(s, now), now) == Refresh(s, now)
  {
    PruneTwice(s.minuteWin, now - MINUTE, now - MINUTE);
    PruneTwice(s.hourWin, now - HOUR, now - HOUR);
  }

  // ---------- Whole runs of one slot ----------

  datatype Event = Attempt(now: int) | Done | Usage(now: int)

  /** A slot with its history: every grant time, every effective release, the last clock read. */
  datatype Trace = Trace(slot: Slot, grants: seq<int>, releases: nat, clock: int)

  function Step(r: Trace, e: Event, lim: Limits): Trace {
    match e
    case Attempt(now) =>
      var g := if Verdicts(r.slot, now, lim) == Granted then r.grants + [now] else r.grants;
      Trace(Try(r.slot, now, lim), g, r.releases, now)
    case Done =>
      r.(slot := Release(r.slot), releases := if r.slot.inflight > 0 then r.releases + 1 else r.releases)
    case Usage(now) =>
      r.(slot := Refresh(r.slot, now), clock := now)
  }

  ghost predicate ClockMovesOn(r: Trace, e: Event) {
    e.Done? || r.clock <= e.now
  }

  function Run(r: Trace, events: seq<Event>, lim: Limits): Trace
    decreases |events|
  {
    if events == [] then r else Run(Step(r, events[0], lim), events[1..], lim)
  }

  ghost predicate InClockOrder(r: Trace, events: seq<Event>, lim: Limits)
    decreases |events|
  {
    events == [] || (ClockMovesOn(r, events[0]) && InClockOrder(Step(r, events[0], lim), events[1..], lim))
  }

  /** Any two grants that are `n` apart are more than `width` seconds apart. */
  ghost predicate Spaced(grants: seq<int>, n: int, width: int) {
    n > 0 ==> forall k :: n <= k < |grants| ==> grants[k - n] < grants[k] - width
  }

  ghost predicate Good(r: Trace, lim: Limits) {
    && Sorted(r.grants) && (forall t :: t in r.grants ==> t <= r.clock)
    && r.slot.minuteWin == Prune(r.grants, r.clock - MINUTE)
    && r.slot.hourWin == Prune(r.grants, r.clock - HOUR)
    && r.slot.inflight + r.releases == |r.grants|
    && (lim.concurrent > 0 ==> r.slot.inflight <= lim.concurrent)
    && Spaced(r.grants, lim.rpm, MINUTE)
    && Spaced(r.grants, lim.rph, HOUR)
  }

  lemma SpacedSnoc(grants: seq<int>, now: int, n: int, width: int)
    requires Spaced(grants, n, width)
    requires n > 0 ==> |Prune(grants, now - width)| < n
    ensures Spaced(grants + [now], n, width)
  {
    hide Stale;
    var all := grants + [now];
    forall k | 0 < n <= k < |all|
      ensures all[k - n] < all[k] - width
    {
      assert all[k - n] == grants[k - n];
      if k < |grants| {
        assert all[k] == grants[k];
      } else {
        assert k - n < Stale(grants, now - width);
      }
    }
  }

  lemma SortedSnoc(grants: seq<int>, now: int)
    requires Sorted(grants) && forall t :: t in grants ==> t <= now
    ensures Sorted(grants + [now]) && forall t :: t in grants + [now] ==> t <= now
  {
    var all := grants + [now];
    forall i, j | 0 <= i <= j < |all|
      ensures all[i] <= all[j]
    {
      if i < |grants| { assert all[i] == grants[i] && grants[i] in grants; }
    }
  }

  lemma RefreshKeepsGood(r: Trace, now: int, lim: Limits)
    requires Good(r, lim) && r.clock <= now
    ensures Good(r.(slot := Refresh(r.slot, now), clock := now), lim)
  {
    hide Prune, Spaced;
    PruneTwice(r.grants, r.clock - MINUTE, now - MINUTE);
    PruneTwice(r.grants, r.clock - HOUR, now - HOUR);
  }

  lemma GrantKeepsGood(r: Trace, lim: Limits)
    requires Good(r, lim) && Judge(r.slot, lim) == Granted
    ensures Good(r.(slot := Grant(r.slot, r.clock), grants := r.grants + [r.clock]), lim)
  {
    hide Prune, Spaced, Sorted;
    PruneSnoc(r.grants, r.clock, r.clock - MINUTE);
    PruneSnoc(r.grants, r.clock, r.clock - HOUR);
    SpacedSnoc(r.grants, r.clock, lim.rpm, MINUTE);
    SpacedSnoc(r.grants, r.clock, lim.rph, HOUR);
    SortedSnoc(r.grants, r.clock);
  }

  lemma StepKeepsGood(r: Trace, e: Event, lim: Limits)
    requires Good(r, lim) && ClockMovesOn(r, e)
    ensures Good(Step(r, e, lim), lim)
  {
    hide Prune, Spaced, Sorted;
    if !e.Done? {
      hide Good;
      RefreshKeepsGood(r, e.now, lim);
      if e.Attempt? && Verdicts(r.slot, e.now, lim) == Granted {
        GrantKeepsGood(r.(slot := Refresh(r.slot, e.now), clock := e.now), lim);
      }
    }
  }

  lemma {:induction false} RunKeepsGood(r: Trace, events: seq<Event>, lim: Limits)
    requires Good(r, lim) && InClockOrder(r, events, lim)
    ensures Good(Run(r, events, lim), lim)
    decreases |events|
  {
    hide Good, Step;
    if events != [] {
      StepKeepsGood(r, events[0], lim);
      RunKeepsGood(Step(r, events[0], lim), events[1..], lim);
    }
  }

  // ---------- Sliding-window safety ----------

  /** How many of the times lie in [from, to]. */
  function CountIn(ts: seq<int>, from: int, to: int): (n: nat)
    ensures n <= |ts|
  {
    if ts == [] then 0
    else CountIn(ts[..|ts| - 1], from, to) + (if from <= ts[|ts| - 1] <= to then 1 else 0)
  }

  lemma {:induction false} CountAfter(ts: seq<int>, from: int, to: int, m: nat)
    requires m <= |ts| && forall i :: 0 <= i < m ==> ts[i] < from
    ensures CountIn(ts, from, to) <= |ts| - m
  {
    if m < |ts| {
      CountAfter(ts[..|ts| - 1], from, to, m);
    } else if m > 0 {
      CountAfter(ts[..|ts| - 1], from, to, m - 1);
    }
  }

  lemma {:induction false} SpacedBoundsWindow(ts: seq<int>, n: int, width: int, t: int)
    requires n > 0 && Sorted(ts) && Spaced(ts, n, width)
    ensures CountIn(ts, t - width, t) <= n
  {
    if ts != [] {
      var k := |ts| - 1;
      if t - width <= ts[k] <= t {
        if k >= n {
          assert ts[k - n] < t - width;
          forall i | 0 <= i < k - n + 1
            ensures ts[i] < t - width
          {
            assert ts[i] <= ts[k - n];
          }
          CountAfter(ts, t - width, t, k - n + 1);
        }
      } else {
        SpacedBoundsWindow(ts[..k], n, width, t);
      }
    }
  }

  const FRESH: Trace := Trace(EMPTY, [], 0, 0)

  lemma FreshIsGood(start: int, lim: Limits)
    ensures Good(FRESH.(clock := start), lim)
  {
  }

  /** In every run with a clock that does not go back, at every instant `t`: at most rpm grants in
      [t - 60, t], at most rph in [t - 3600, t], and never more than `concurrent` in flight. */
  lemma SlidingWindowSafety(start: int, events: seq<Event>, lim: Limits, t: int)
    requires InClockOrder(FRESH.(clock := start), events, lim)
    ensures var r := Run(FRESH.(clock := start), events, lim);
            && (lim.rpm > 0 ==> CountIn(r.grants, t - 60, t) <= lim.rpm)
            && (lim.rph > 0 ==> CountIn(r.grants, t - 3600, t) <= lim.rph)
            && (lim.concurrent > 0 ==> r.slot.inflight <= lim.concurrent)
            && r.slot.inflight + r.releases == |r.grants|
  {
    hide Run, Prune, Spaced, Sorted, CountIn;
    var r0 := FRESH.(clock := start);
    FreshIsGood(start, lim);
    RunKeepsGood(r0, events, lim);
    var r := Run(r0, events, lim);
    if lim.rpm > 0 { SpacedBoundsWindow(r.grants, lim.rpm, MINUTE, t); }
    if lim.rph > 0 { SpacedBoundsWindow(r.grants, lim.rph, HOUR, t); }
  }

  /** The windows that are kept are the filter of the whole grant history by their cutoff. */
  lemma WindowsAreFilters(start: int, events: seq<Event>, lim: Limits)
    requires InClockOrder(FRESH.(clock := start), events, lim)
    ensures var r := Run(FRESH.(clock := start), events, lim);
            && r.slot.minuteWin == AtLeast(r.grants, r.clock - MINUTE)
            && r.slot.hourWin == AtLeast(r.grants, r.clock - HOUR)
  {
    hide Run, Prune, Spaced, Sorted, AtLeast;
    var r0 := FRESH.(clock := start);
    FreshIsGood(start, lim);
    RunKeepsGood(r0, events, lim);
    var r := Run(r0, events, lim);
    PruneIsFilter(r.grants, r.clock - MINUTE);
    PruneIsFilter(r.grants, r.clock - HOUR);
  }

  // ---------- What an attempt is answered ----------

  /** A limit that is on is reached. */
  predicate Reached(limit: int, n: int) {
    limit > 0 && n >= limit
  }

  lemma {:induction false} CountAll(ts: seq<int>, from: int, to: int, m: nat)
    requires m <= |ts| && (forall i :: 0 <= i < m ==> ts[i] < from) && forall i :: m <= i < |ts| ==> from <= ts[i] <= to
    ensures CountIn(ts, from, to) == |ts| - m
  {
    if m < |ts| {
      CountAll(ts[..|ts| - 1], from, to, m);
    } else {
      CountAfter(ts, from, to, m);
    }
  }

  /** A window that is kept has as many entries as there were grants in it. */
  lemma WindowCounts(grants: seq<int>, width: int, now: int)
    requires Sorted(grants) && forall t :: t in grants ==> t <= now
    ensures |Prune(grants, now - width)| == CountIn(grants, now - width, now)
  {
    hide Stale, CountIn;
    var m := Stale(grants, now - width);
    forall i | m <= i < |grants|
      ensures now - width <= grants[i] <= now
    {
      assert grants[m] <= grants[i] && grants[i] in grants;
    }
    CountAll(grants, now - width, now, m);
  }

  /** After every run in clock order, an attempt is granted if and only if no limit that is on is
      reached: by the grants that are not released, by those of the last minute, by those of the last
      hour. A refusal names the first limit that is reached. */
  lemma GrantedIff(start: int, events: seq<Event>, lim: Limits, now: int)
    requires InClockOrder(FRESH.(clock := start), events, lim)
    requires Run(FRESH.(clock := start), events, lim).clock <= now
    ensures var r := Run(FRESH.(clock := start), events, lim);
            var busy := Reached(lim.concurrent, |r.grants| - r.releases);
            var minute := Reached(lim.rpm, CountIn(r.grants, now - 60, now));
            var hour := Reached(lim.rph, CountIn(r.grants, now - 3600, now));
            Answers(Verdicts(r.slot, now, lim), busy, minute, hour)
  {
    hide Run, Prune, Spaced, CountIn;
    var r0 := FRESH.(clock := start);
    FreshIsGood(start, lim);
    RunKeepsGood(r0, events, lim);
    var r := Run(r0, events, lim);
    RefreshKeepsGood(r, now, lim);
    WindowCounts(r.grants, MINUTE, now);
    WindowCounts(r.grants, HOUR, now);
  }

  /** The verdict when the three limits are reached or not. */
  ghost predicate Answers(v: Verdict, busy: bool, minute: bool, hour: bool) {
    && (v == Granted <==> !busy && !minute && !hour)
    && (v == Concurrent <==> busy)
    && (v == Rpm <==> !busy && minute)
    && (v == Rph <==> !busy && !minute && hour)
  }
}
