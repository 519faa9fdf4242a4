/** The catch-up loops over the tables, and the retention sweep. */
module StatsStores {
  import opened Text
  import opened Percentiles
  import opened Stats
  import opened StatsRuns

  // ---------- Accumulators of one hour ----------

  datatype Acc = Acc(count: int, success: int, fail: int, totalMs: int, prompt: int, output: int, latencies: seq<int>)

  const ZERO := Acc(0, 0, 0, 0, 0, 0, [])

  function Bump(a: Acc, r: Request): Acc {
    Acc(a.count + 1,
        if r.status == 200 then a.success + 1 else a.success, if r.status == 200 then a.fail else a.fail + 1,
        a.totalMs + r.totalMs, a.prompt + r.prompt, a.output + r.output, a.latencies + [r.totalMs])
  }

  function AccOf(rows: seq<Request>, lo: int, hi: int, g: Group): Acc {
    Acc(Weigh(rows, lo, hi, g, ONE), Weigh(rows, lo, hi, g, OK), Weigh(rows, lo, hi, g, BAD),
        Weigh(rows, lo, hi, g, MS), Weigh(rows, lo, hi, g, PROMPT), Weigh(rows, lo, hi, g, OUTPUT),
        Latencies(rows, lo, hi, g))
  }

  ghost predicate Accumulated(groups: map<Group, Acc>, rows: seq<Request>, lo: int, hi: int) {
    forall g ::
      && (g in groups <==> exists r :: r in rows && Counts(r, lo, hi, g))
      && AccOf(rows, lo, hi, g) == if g in groups then groups[g] else ZERO
  }

  lemma AccSnoc(rows: seq<Request>, r: Request, lo: int, hi: int, g: Group)
    ensures AccOf(rows + [r], lo, hi, g) ==
            if Counts(r, lo, hi, g) then Bump(AccOf(rows, lo, hi, g), r) else AccOf(rows, lo, hi, g)
  {
    assert (rows + [r])[..|rows|] == rows;
    var lat := Latencies(rows, lo, hi, g);
    assert lat + [] == lat;
  }

  lemma AccumulatedSnoc(groups: map<Group, Acc>, rows: seq<Request>, r: Request, lo: int, hi: int)
    requires Accumulated(groups, rows, lo, hi)
    ensures var g := GroupOf(r);
            Accumulated(if lo <= r.ts < hi then groups[g := Bump(if g in groups then groups[g] else ZERO, r)]
                        else groups,
                        rows + [r], lo, hi)
  {
    hide AccOf;
    var all, g := rows + [r], GroupOf(r);
    var next := if lo <= r.ts < hi then groups[g := Bump(if g in groups then groups[g] else ZERO, r)] else groups;
    assert r in all;
    forall x
      ensures x in next <==> exists q :: q in all && Counts(q, lo, hi, x)
      ensures AccOf(all, lo, hi, x) == if x in next then next[x] else ZERO
    {
      AccSnoc(rows, r, lo, hi, x);
      if x in groups {
        var q :| q in rows && Counts(q, lo, hi, x);
        assert q in all;
      }
      if lo <= r.ts < hi && x == g { assert Counts(r, lo, hi, x); }
      if q :| q in all && Counts(q, lo, hi, x) {
        if q in rows { assert x in groups; }
      }
    }
  }

  function Finish(a: Acc): Cells {
    Cells(a.count, a.success, a.fail, a.totalMs, P50(a.latencies), P95(a.latencies), a.prompt, a.output)
  }

  /** The rows that one hour adds. */
  lemma HourRows(groups: map<Group, Acc>, rows: seq<Request>, start: int)
    requires start % HOUR == 0 && Accumulated(groups, rows, start, start + HOUR)
    ensures var t := Rollup(rows, start - HOUR, start);
            && (forall k: Key :: k in t <==> k.bucket == start && k.group in groups)
            && (forall k: Key :: k in t ==> t[k] == Finish(groups[k.group]))
  {
    hide HourOf, Weigh, Latencies, P50, P95;
    forall k: Key
      ensures k in Rollup(rows, start - HOUR, start) <==> k.bucket == start && k.group in groups
    {
      if k.bucket == start {
        KeyMeans(rows, k);
      } else if k in KeysOf(rows) && start - HOUR < k.bucket <= start {
        var r :| r in rows && KeyOf(r) == k;
        HourOfIs(r.ts);
        HoursApart(k.bucket, start);
      }
    }
  }

  // ---------- Accumulators of one day ----------

  datatype DayAcc = DayAcc(count: int, success: int, fail: int, totalMs: int, prompt: int, output: int,
                           p50Sum: int, p50N: int, p95Sum: int, p95N: int)

  const DAY_ZERO := DayAcc(0, 0, 0, 0, 0, 0, 0, 0, 0, 0)

  function DayBump(a: DayAcc, c: Cells): DayAcc {
    DayAcc(a.count + c.requests, a.success + c.successes, a.fail + c.failures, a.totalMs + c.totalMs,
           a.prompt + c.prompt, a.output + c.output,
           if c.p50 > 0 then a.p50Sum + c.p50 else a.p50Sum, if c.p50 > 0 then a.p50N + 1 else a.p50N,
           if c.p95 > 0 then a.p95Sum + c.p95 else a.p95Sum, if c.p95 > 0 then a.p95N + 1 else a.p95N)
  }

  function DayAccOf(t: Table, day: int, g: Group): DayAcc {
    DayAcc(SumHours(t, day, g, 24, REQUESTS), SumHours(t, day, g, 24, SUCCESSES), SumHours(t, day, g, 24, FAILURES),
           SumHours(t, day, g, 24, TOTAL_MS), SumHours(t, day, g, 24, PROMPTS), SumHours(t, day, g, 24, OUTPUTS),
           SumHours(t, day, g, 24, P50_SUM), SumHours(t, day, g, 24, P50_N),
           SumHours(t, day, g, 24, P95_SUM), SumHours(t, day, g, 24, P95_N))
  }

  function DayFinish(a: DayAcc): Cells {
    Cells(a.count, a.success, a.fail, a.totalMs, Average(a.p50Sum, a.p50N), Average(a.p95Sum, a.p95N), a.prompt,
          a.output)
  }

  /** One more hourly row adds to the sum of its own day and group, and to no other. */
  lemma {:induction false} SumHoursAdd(t: Table, k: Key, c: Cells, day: int, g: Group, n: nat, f: Field)
    requires k !in t
    ensures SumHours(t[k := c], day, g, n, f)
         == SumHours(t, day, g, n, f)
            + if k.group == g && day <= k.bucket < day + HOUR * n && (k.bucket - day) % HOUR == 0 then f(c) else 0
  {
    if n > 0 {
      SumHoursAdd(t, k, c, day, g, n - 1, f);
      HourSlot(k.bucket - day, n);
    }
  }

  lemma HourSlot(d: int, n: nat)
    requires n > 0
    ensures 0 <= d < HOUR * n && d % HOUR == 0 <==> d == HOUR * (n - 1) || (0 <= d < HOUR * (n - 1) && d % HOUR == 0)
  {
    if 0 <= d < HOUR * n && d % HOUR == 0 {
      assert d == HOUR * (d / HOUR);
    }
  }

  lemma DayAccAdd(t: Table, k: Key, c: Cells, day: int, g: Group)
    requires k !in t && (k.bucket - day) % HOUR == 0
    ensures DayAccOf(t[k := c], day, g) ==
            if k.group == g && day <= k.bucket < day + DAY then DayBump(DayAccOf(t, day, g), c) else DayAccOf(t, day, g)
  {
    hide SumHours;
    SumHoursAdd(t, k, c, day, g, 24, REQUESTS);
    SumHoursAdd(t, k, c, day, g, 24, SUCCESSES);
    SumHoursAdd(t, k, c, day, g, 24, FAILURES);
    SumHoursAdd(t, k, c, day, g, 24, TOTAL_MS);
    SumHoursAdd(t, k, c, day, g, 24, PROMPTS);
    SumHoursAdd(t, k, c, day, g, 24, OUTPUTS);
    SumHoursAdd(t, k, c, day, g, 24, P50_SUM);
    SumHoursAdd(t, k, c, day, g, 24, P50_N);
    SumHoursAdd(t, k, c, day, g, 24, P95_SUM);
    SumHoursAdd(t, k, c, day, g, 24, P95_N);
  }

  predicate InDay(k: Key, day: int, g: Group) {
    day <= k.bucket < day + DAY && k.group == g
  }

  ghost predicate DayAccumulated(groups: map<Group, DayAcc>, t: Table, day: int) {
    forall g ::
      && (g in groups <==> exists k :: k in t && InDay(k, day, g))
      && DayAccOf(t, day, g) == if g in groups then groups[g] else DAY_ZERO
  }

  lemma DayAccumulatedAdd(groups: map<Group, DayAcc>, t: Table, k: Key, c: Cells, day: int)
    requires DayAccumulated(groups, t, day) && k !in t && (k.bucket - day) % HOUR == 0
    ensures DayAccumulated(
              if day <= k.bucket < day + DAY
              then groups[k.group := DayBump(if k.group in groups then groups[k.group] else DAY_ZERO, c)]
              else groups,
              t[k := c], day)
  {
    hide DayAccOf;
    var next := if day <= k.bucket < day + DAY
                then groups[k.group := DayBump(if k.group in groups then groups[k.group] else DAY_ZERO, c)]
                else groups;
    var t' := t[k := c];
    forall g
      ensures g in next <==> exists q :: q in t' && InDay(q, day, g)
      ensures DayAccOf(t', day, g) == if g in next then next[g] else DAY_ZERO
    {
      DayAccAdd(t, k, c, day, g);
      if g in groups {
        var q :| q in t && InDay(q, day, g);
        assert q in t';
      }
      if day <= k.bucket < day + DAY && g == k.group { assert k in t' && InDay(k, day, g); }
      if q :| q in t' && InDay(q, day, g) {
        if q in t { assert g in groups; }
      }
    }
  }

  lemma NoHoursYet(day: int)
    ensures DayAccumulated(map[], map[], day)
  {
    forall g, f
      ensures SumHours(map[], day, g, 24, f) == 0
    {
      NothingToSum(day, g, 24, f);
    }
  }

  lemma {:induction false} NothingToSum(day: int, g: Group, n: nat, f: Field)
    ensures SumHours(map[], day, g, n, f) == 0
  {
    if n > 0 { NothingToSum(day, g, n - 1, f); }
  }

  lemma DayRows(groups: map<Group, DayAcc>, t: Table, start: int)
    requires start % DAY == 0 && DayAccumulated(groups, t, start)
    ensures var d := DayRollup(t, start - DAY, start);
            && (forall k: Key :: k in d <==> k.bucket == start && k.group in groups)
            && (forall k: Key :: k in d ==> d[k] == DayFinish(groups[k.group]))
  {
    hide DayOf, SumHours;
    forall k: Key
      ensures k in DayRollup(t, start - DAY, start) <==> k.bucket == start && k.group in groups
    {
      if k in DayKeys(t) && start - DAY < k.bucket <= start {
        var q :| q in t && DayKeyOf(q) == k;
        DayOfIs(q.bucket);
        DaysApart(k.bucket, start);
        assert InDay(q, start, k.group);
      }
      if k.bucket == start && k.group in groups {
        var q :| q in t && InDay(q, start, k.group);
        DayIs(q.bucket, start);
        assert DayKeyOf(q) == k;
      }
    }
  }

  // ---------- The tables in the service ----------

  /** SELECT COALESCE(MAX(bucket), 0) */
  method MaxBucket(t: Table) returns (m: int)
    requires forall k :: k in t ==> k.bucket > 0
    ensures IsMax(t, m)
  {
    m := 0;
    var left := t.Keys;
    while left != {}
      invariant left <= t.Keys && m >= 0
      invariant m == 0 <==> left == t.Keys
      invariant m > 0 ==> exists k :: k in t && k.bucket == m
      invariant forall k :: k in t && k !in left ==> k.bucket <= m
      decreases left
    {
      ghost var some := SomeElement(left);
      var k :| k in left;
      left := left - {k};
      if k.bucket > m {
        m := k.bucket;
      }
    }
  }

  lemma RollupBelow(rows: seq<Request>, after: int, upto: int)
    requires forall k :: k in KeysOf(rows) ==> after < k.bucket ==> upto < k.bucket
    ensures Rollup(rows, after, upto) == map[]
  {
    hide CellsOf, KeysOf;
  }

  lemma DayRollupBelow(t: Table, after: int, upto: int)
    requires forall k :: k in DayKeys(t) ==> after < k.bucket ==> upto < k.bucket
    ensures DayRollup(t, after, upto) == map[]
  {
    hide DayCells, DayKeys;
  }

  class StatsStore {
    var requests: seq<Request>
    var hourly: Table
    var daily: Table

    constructor ()
      ensures requests == [] && hourly == map[] && daily == map[] && Valid()
    {
      requests, hourly, daily := [], map[], map[];
    }

    ghost predicate Valid()
      reads this
    {
      Stamped(requests) && Aligned(hourly, HOUR) && Aligned(daily, DAY) && (forall k :: k in hourly ==> k.bucket >= DAY)
    }

    /** One closed hour, from raw requests: every group is written or overwritten. */
    method AggregateHour(start: int)
      requires start % HOUR == 0
      modifies this`hourly
      ensures hourly == old(hourly) + Rollup(requests, start - HOUR, start)
    {
      hide Counts, Weigh, Latencies, Rollup, AccOf, Finish;
      var end := start + HOUR;
      var groups: map<Group, Acc> := map[];
      assert Accumulated(groups, [], start, end) by { NoRequestsYet(start, end); }
      for i := 0 to |requests|
        invariant hourly == old(hourly) && Accumulated(groups, requests[..i], start, end)
      {
        var r := requests[i];
        AccumulatedSnoc(groups, requests[..i], r, start, end);
        assert requests[..i + 1] == requests[..i] + [r];
        if start <= r.ts < end {
          var g := GroupOf(r);
          groups := groups[g := Bump(if g in groups then groups[g] else ZERO, r)];
        }
      }
      assert requests[..|requests|] == requests;
      HourRows(groups, requests, start);
      ghost var added := Rollup(requests, start - HOUR, start);
      WriteHour(groups, start);
      assert forall k: Key :: k in hourly <==> k in old(hourly) || k in added;
      assert forall k: Key :: k in hourly ==> hourly[k] == if k in added then added[k] else old(hourly)[k];
    }

    method WriteHour(groups: map<Group, Acc>, start: int)
      modifies this`hourly
      ensures forall k: Key :: k in hourly <==> k in old(hourly) || (k.bucket == start && k.group in groups)
      ensures forall k: Key :: k in hourly ==>
                hourly[k] == if k.bucket == start && k.group in groups then Finish(groups[k.group]) else old(hourly)[k]
    {
      hide Finish;
      var left := groups.Keys;
      while left != {}
        invariant left <= groups.Keys
        invariant forall k: Key :: k in hourly <==>
                    k in old(hourly) || (k.bucket == start && k.group in groups && k.group !in left)
        invariant forall k: Key :: k in hourly ==>
                    hourly[k] == if k.bucket == start && k.group in groups && k.group !in left
                                 then Finish(groups[k.group]) else old(hourly)[k]
        decreases left
      {
        ghost var some := SomeElement(left);
        var g :| g in left;
        left := left - {g};
        hourly := hourly[Key(start, g) := FinishRow(groups[g])];
      }
    }

    function FinishRow(a: Acc): (c: Cells)
      ensures c == Finish(a)
    {
      Finish(a)
    }

    /** From the hour after MAX(bucket), or from the oldest request, to the last closed hour. */
    method AggregateHourlyCatchup(now: int) returns (ghost m: int)
      requires Valid()
      modifies this`hourly
      ensures Valid() && IsMax(old(hourly), m)
      ensures hourly == HourlyCatchUp(old(hourly), m, requests, now)
    {
      hide Rollup, HourOf, KeysOf, IsMax, Aligned;
      assert forall k :: k in hourly ==> k.bucket > 0 by { BucketsArePositive(hourly, HOUR); }
      var last := MaxBucket(hourly);
      m := last;
      MaxOfAligned(hourly, HOUR, m);
      RollupIsAligned(requests);
      var target := HourOf(now) - HOUR;
      HourOfIs(now);
      KeysArePositive(requests);
      if last == 0 {
        if requests == [] {
          NoKeys();
          RollupBelow(requests, m, target);
          assert old(hourly) + map[] == old(hourly);
          return;
        }
        last := HourBeforeOldest();
      }
      HoursFrom(m, last, target);
      UnionIsAligned(old(hourly), Rollup(requests, m, target), HOUR);
    }

    /** The hour before that of the oldest request. */
    method HourBeforeOldest() returns (last: int)
      requires requests != [] && Stamped(requests)
      ensures last >= 0 && last % HOUR == 0 && forall k :: k in KeysOf(requests) ==> last < k.bucket
    {
      hide HourOf, KeysOf;
      var min := OldestRequest();
      last := HourOf(min) - HOUR;
      HourOfIs(min);
      NothingBefore(requests, min);
      FirstHourIsPositive(min);
    }

    /** The loop over the closed hours after `last`; none before it has requests to count. */
    method HoursFrom(ghost m: int, last: int, target: int)
      requires 0 <= m <= last && last % HOUR == 0 && target % HOUR == 0
      requires forall k :: k in KeysOf(requests) && m < k.bucket ==> last < k.bucket
      modifies this`hourly
      ensures hourly == old(hourly) + Rollup(requests, m, target)
    {
      hide Rollup, KeysOf;
      RollupBelow(requests, m, last);
      var b := last + HOUR;
      while b <= target
        invariant b % HOUR == 0 && m <= last <= b - HOUR
        invariant b - HOUR <= target || b == last + HOUR
        invariant hourly == old(hourly) + Rollup(requests, m, b - HOUR)
        decreases target - b
      {
        AggregateHour(b);
        RollupSplit(requests, m, b - HOUR, b);
        b := b + HOUR;
      }
      if target < b - HOUR {
        RollupBelow(requests, m, target);
      } else {
        HoursApart(target, b);
      }
    }

    /** One closed day, from the hourly rows. */
    method AggregateDay(start: int)
      requires start % DAY == 0 && Aligned(hourly, HOUR)
      modifies this`daily
      ensures daily == old(daily) + DayRollup(hourly, start - DAY, start)
    {
      hide DayRollup, DayAccOf, DayFinish, DayBump, DayAccumulated;
      var groups: map<Group, DayAcc> := map[];
      ghost var part: Table := map[];
      NoHoursYet(start);
      var left := hourly.Keys;
      while left != {}
        invariant daily == old(daily) && left <= hourly.Keys && part.Keys == hourly.Keys - left
        invariant forall k :: k in part ==> part[k] == hourly[k]
        invariant DayAccumulated(groups, part, start)
        decreases left
      {
        ghost var some := SomeElement(left);
        var k :| k in left;
        left := left - {k};
        var c := hourly[k];
        HoursInDays(k.bucket, start);
        DayAccumulatedAdd(groups, part, k, c, start);
        part := part[k := c];
        if start <= k.bucket < start + DAY {
          groups := groups[k.group := DayBump(if k.group in groups then groups[k.group] else DAY_ZERO, c)];
        }
      }
      assert part == hourly;
      DayRows(groups, hourly, start);
      ghost var added := DayRollup(hourly, start - DAY, start);
      WriteDay(groups, start);
      assert forall k: Key :: k in daily <==> k in old(daily) || k in added;
      assert forall k: Key :: k in daily ==> daily[k] == if k in added then added[k] else old(daily)[k];
    }

    method WriteDay(groups: map<Group, DayAcc>, start: int)
      modifies this`daily
      ensures forall k: Key :: k in daily <==> k in old(daily) || (k.bucket == start && k.group in groups)
      ensures forall k: Key :: k in daily ==>
                daily[k] == if k.bucket == start && k.group in groups then DayFinish(groups[k.group]) else old(daily)[k]
    {
      hide DayFinish;
      var left := groups.Keys;
      while left != {}
        invariant left <= groups.Keys
        invariant forall k: Key :: k in daily <==>
                    k in old(daily) || (k.bucket == start && k.group in groups && k.group !in left)
        invariant forall k: Key :: k in daily ==>
                    daily[k] == if k.bucket == start && k.group in groups && k.group !in left
                                then DayFinish(groups[k.group]) else old(daily)[k]
        decreases left
      {
        ghost var some := SomeElement(left);
        var g :| g in left;
        left := left - {g};
        daily := daily[Key(start, g) := DayFinish(groups[g])];
      }
    }

    /** From the day after MAX(bucket), or from the oldest hourly row, to the last closed day. */
    method AggregateDailyCatchup(now: int) returns (ghost m: int)
      requires Valid()
      modifies this`daily
      ensures Valid() && IsMax(old(daily), m)
      ensures daily == DailyCatchUp(old(daily), m, hourly, now)
    {
      hide DayRollup, DayOf, DayKeys, Stamped, IsMax, Aligned;
      assert forall k :: k in daily ==> k.bucket > 0 by { BucketsArePositive(daily, DAY); }
      var last := MaxBucket(daily);
      m := last;
      MaxOfAligned(daily, DAY, m);
      DayRollupIsAligned(hourly);
      var target := DayOf(now) - DAY;
      DayOfIs(now);
      DayKeysPositive(hourly);
      if last == 0 {
        if hourly == map[] {
          NoDayKeys();
          DayRollupBelow(hourly, m, target);
          assert old(daily) + map[] == old(daily);
          return;
        }
        last := DayBeforeOldest();
      }
      DaysFrom(m, last, target);
      UnionIsAligned(old(daily), DayRollup(hourly, m, target), DAY);
    }

    /** The day before that of the oldest hourly row. */
    method DayBeforeOldest() returns (last: int)
      requires hourly != map[] && forall k :: k in hourly ==> k.bucket >= DAY
      ensures last >= 0 && last % DAY == 0 && forall k :: k in DayKeys(hourly) ==> last < k.bucket
    {
      hide DayOf, DayKeys;
      var min := OldestHour();
      last := DayOf(min) - DAY;
      DayOfIs(min);
      NoDayBefore(hourly, min);
      FirstDay(min);
      DaysApart(0, DayOf(min));
    }

    /** The loop over the closed days after `last`; none before it has hourly rows. */
    method DaysFrom(ghost m: int, last: int, target: int)
      requires 0 <= m <= last && last % DAY == 0 && target % DAY == 0 && Aligned(hourly, HOUR)
      requires forall k :: k in DayKeys(hourly) && m < k.bucket ==> last < k.bucket
      modifies this`daily
      ensures daily == old(daily) + DayRollup(hourly, m, target)
    {
      hide DayRollup, DayKeys;
      DayRollupBelow(hourly, m, last);
      var b := last + DAY;
      while b <= target
        invariant b % DAY == 0 && m <= last <= b - DAY
        invariant b - DAY <= target || b == last + DAY
        invariant daily == old(daily) + DayRollup(hourly, m, b - DAY)
        decreases target - b
      {
        AggregateDay(b);
        DayRollupSplit(hourly, m, b - DAY, b);
        b := b + DAY;
      }
      if target < b - DAY {
        DayRollupBelow(hourly, m, target);
      } else {
        DaysApart(target, b);
      }
    }

    method OldestHour() returns (min: int)
      requires hourly != map[]
      ensures (exists k :: k in hourly && k.bucket == min) && forall k :: k in hourly ==> min <= k.bucket
    {
      ghost var first := SomeElement(hourly.Keys);
      var k0 :| k0 in hourly;
      min := k0.bucket;
      var left := hourly.Keys;
      while left != {}
        invariant left <= hourly.Keys
        invariant exists k :: k in hourly && k.bucket == min
        invariant forall k :: k in hourly && k !in left ==> min <= k.bucket
        decreases left
      {
        ghost var some := SomeElement(left);
        var k :| k in left;
        left := left - {k};
        if k.bucket < min {
          min := k.bucket;
        }
      }
    }

    method OldestRequest() returns (min: int)
      requires requests != []
      ensures (exists r :: r in requests && r.ts == min) && forall r :: r in requests ==> min <= r.ts
    {
      min := requests[0].ts;
      assert requests[0] in requests;
      for i := 1 to |requests|
        invariant exists r :: r in requests && r.ts == min
        invariant forall j :: 0 <= j < i ==> min <= requests[j].ts
      {
        if requests[i].ts < min {
          min := requests[i].ts;
          assert requests[i] in requests;
        }
      }
    }

    /** DELETE FROM requests WHERE ts < cutoff, unless retention is off. */
    method RetentionSweep(now: int, days: int)
      requires Valid()
      modifies this`requests
      ensures Valid()
      ensures requests == if days <= 0 then old(requests) else Since(old(requests), now - days * DAY)
    {
      if days <= 0 {
        return;
      }
      hide Aligned, Since;
      var cutoff := now - days * DAY;
      var rows, kept := requests, [];
      assert kept == Since([], cutoff) by { NothingSince(cutoff); }
      for i := 0 to |rows|
        invariant kept == Since(rows[..i], cutoff)
      {
        SinceSnoc(rows[..i], rows[i], cutoff);
        assert rows[..i + 1] == rows[..i] + [rows[i]];
        if rows[i].ts >= cutoff {
          kept := kept + [rows[i]];
        }
      }
      assert rows[..|rows|] == rows;
      requests := kept;
    }

    /** A request is recorded. */
    method Record(r: Request)
      requires Valid() && r.ts >= DAY
      modifies this`requests
      ensures Valid() && requests == old(requests) + [r]
    {
      requests := requests + [r];
    }

    /** What runs at boot: everything that was missed, in the order that conserves it. */
    method OnBoot(now: int, days: int) returns (ghost h: int, ghost d: int)
      requires Valid()
      modifies this
      ensures Valid() && IsMax(old(hourly), h) && IsMax(old(daily), d)
      ensures hourly == HourlyCatchUp(old(hourly), h, old(requests), now)
      ensures daily == DailyCatchUp(old(daily), d, hourly, now)
      ensures requests == if days <= 0 then old(requests) else Since(old(requests), now - days * DAY)
    {
      hide Valid, IsMax, HourlyCatchUp, DailyCatchUp, Since;
      h := AggregateHourlyCatchup(now);
      d := AggregateDailyCatchup(now);
      RetentionSweep(now, days);
    }
  }

  lemma NothingSince(cutoff: int)
    ensures Since([], cutoff) == []
  {
  }

  lemma BucketsArePositive(t: Table, span: int)
    requires span > 0 && Aligned(t, span)
    ensures forall k :: k in t ==> k.bucket > 0
  {
  }

  lemma MaxOfAligned(t: Table, span: int, m: int)
    requires span > 0 && Aligned(t, span) && IsMax(t, m)
    ensures m >= 0 && m % span == 0
  {
  }

  lemma UnionIsAligned(t: Table, u: Table, span: int)
    requires span > 0 && Aligned(t, span) && Aligned(u, span)
    ensures Aligned(t + u, span)
  {
  }

  lemma RollupIsAligned(rows: seq<Request>)
    requires Stamped(rows)
    ensures forall lo, hi :: Aligned(Rollup(rows, lo, hi), HOUR)
    ensures forall lo, hi, k :: k in Rollup(rows, lo, hi) ==> k.bucket >= DAY
  {
    hide CellsOf, HourOf;
    KeysArePositive(rows);
    forall r | r in rows
      ensures KeyOf(r).bucket >= DAY
    {
      FirstHourIsPositive(r.ts);
    }
  }

  lemma DayRollupIsAligned(t: Table)
    requires forall k :: k in t ==> k.bucket >= DAY
    ensures forall lo, hi :: Aligned(DayRollup(t, lo, hi), DAY)
  {
    hide DayCells, DayOf, DayKeys;
    DayKeysPositive(t);
  }

  lemma NoRequestsYet(lo: int, hi: int)
    ensures Accumulated(map[], [], lo, hi)
  {
  }

  lemma NoKeys()
    ensures KeysOf([]) == {}
  {
  }

  lemma NothingBefore(rows: seq<Request>, min: int)
    requires forall r :: r in rows ==> min <= r.ts
    ensures forall k :: k in KeysOf(rows) ==> k.bucket >= HourOf(min)
  {
    hide HourOf;
    forall r | r in rows
      ensures KeyOf(r).bucket >= HourOf(min)
    {
      HoursInOrder(min, r.ts);
    }
  }

  lemma FirstHourIsPositive(min: int)
    requires min >= DAY
    ensures HourOf(min) >= DAY
  {
    HoursInOrder(DAY, min);
    assert HourOf(DAY) == DAY;
  }

  lemma NoDayKeys()
    ensures DayKeys(map[]) == {}
  {
  }

  lemma DayKeysPositive(t: Table)
    requires forall k :: k in t ==> k.bucket >= DAY
    ensures forall k :: k in DayKeys(t) ==> k.bucket > 0 && k.bucket % DAY == 0
  {
    hide DayOf;
    forall k | k in t
      ensures DayKeyOf(k).bucket > 0 && DayKeyOf(k).bucket % DAY == 0
    {
      FirstDay(k.bucket);
      DayOfIs(k.bucket);
    }
  }

  lemma NoDayBefore(t: Table, min: int)
    requires forall k :: k in t ==> min <= k.bucket
    ensures forall k :: k in DayKeys(t) ==> k.bucket >= DayOf(min)
  {
    hide DayOf;
    forall k | k in t
      ensures DayKeyOf(k).bucket >= DayOf(min)
    {
      DaysInOrder(min, k.bucket);
    }
  }

  lemma HoursInDays(bucket: int, day: int)
    requires bucket % HOUR == 0 && day % DAY == 0
    ensures (bucket - day) % HOUR == 0
  {
    assert bucket == HOUR * (bucket / HOUR) && day == HOUR * (24 * (day / DAY));
    assert bucket - day == HOUR * (bucket / HOUR - 24 * (day / DAY));
  }

  /** The daily row of a closed day, before and after an hourly row of it is added. */
  lemma HourInDay(t: Table, k: Key, c: Cells)
    requires k !in t && k.bucket % HOUR == 0
    ensures var day, g := DayOf(k.bucket), k.group;
            && DayKeyOf(k) in DayKeys(t[k := c])
            && DayAccOf(t[k := c], day, g) == DayBump(DayAccOf(t, day, g), c)
  {
    hide DayOf, DayAccOf, DayBump;
    DayOfIs(k.bucket);
    HoursInDays(k.bucket, DayOf(k.bucket));
    DayAccAdd(t, k, c, DayOf(k.bucket), k.group);
    assert k in t[k := c];
  }

  lemma MaxDayIsAligned(daily: Table, m: int, t: Table)
    requires IsMax(daily, m) && daily == DayRollup(t, 0, m) && forall k :: k in t ==> k.bucket >= DAY
    ensures m >= 0 && m % DAY == 0
  {
    hide DayCells, DayOf, DayKeys;
    DayKeysPositive(t);
  }

  /** Days before that of a new hourly row do not depend on it. */
  lemma EarlierDaysStay(t: Table, k: Key, c: Cells, m: int)
    requires k !in t && m % DAY == 0 && m < DayOf(k.bucket)
    ensures DayRollup(t[k := c], 0, m) == DayRollup(t, 0, m)
  {
    hide DayOf, DayRollup;
    DayOfIs(k.bucket);
    DaysApart(m, DayOf(k.bucket));
    DayRollupStable(t, t[k := c], m);
  }

  /** Exactly when an hourly row that is written late still reaches the daily table at the next
      catch-up: when no daily row of its day or a later one has been written. */
  lemma LateHourIsCountedIff(daily: Table, m: int, t: Table, k: Key, c: Cells, now: int)
    requires IsMax(daily, m) && daily == DayRollup(t, 0, m) && forall q :: q in t ==> q.bucket >= DAY
    requires k !in t && k.bucket >= DAY && k.bucket % HOUR == 0 && c.requests > 0
    requires DayOf(k.bucket) <= DayOf(now) - DAY
    ensures DailyCatchUp(daily, m, t[k := c], now) == DayRollup(t[k := c], 0, DayOf(now) - DAY) <==> m < DayOf(k.bucket)
  {
    hide DayOf, DayCells, DayKeys, DayRollup, IsMax;
    var t', day, upto := t[k := c], DayOf(k.bucket), DayOf(now) - DAY;
    MaxDayIsAligned(daily, m, t);
    if m < day {
      EarlierDaysStay(t, k, c, m);
      DayRollupSplit(t', 0, m, upto);
    } else {
      MissingFromDay(daily, m, t, k, c, upto);
    }
  }

  lemma MissingFromDay(daily: Table, m: int, t: Table, k: Key, c: Cells, upto: int)
    requires daily == DayRollup(t, 0, m) && k !in t && k.bucket >= DAY && k.bucket % HOUR == 0 && c.requests > 0
    requires DayOf(k.bucket) <= m && DayOf(k.bucket) <= upto
    ensures daily + DayRollup(t[k := c], m, upto) != DayRollup(t[k := c], 0, upto)
  {
    hide DayOf, SumHours, DayKeys;
    var t', row := t[k := c], DayKeyOf(k);
    FirstDay(k.bucket);
    HourInDay(t, k, c);
    var full, seen := DayRollup(t', 0, upto), daily + DayRollup(t', m, upto);
    assert row in full && full[row].requests == SumHours(t, row.bucket, k.group, 24, REQUESTS) + c.requests;
    assert row in seen ==> seen[row].requests == SumHours(t, row.bucket, k.group, 24, REQUESTS);
  }

  /** One daily catch-up, at `now`, over the hourly table there is then; `m` is MAX(bucket). */
  datatype CatchUp = CatchUp(hourly: Table, m: int, now: int)

  ghost predicate InSequence(daily: Table, ups: seq<CatchUp>)
    decreases |ups|
  {
    ups == [] ||
    (IsMax(daily, ups[0].m) && InSequence(DailyCatchUp(daily, ups[0].m, ups[0].hourly, ups[0].now), ups[1..]))
  }

  function AfterAll(daily: Table, ups: seq<CatchUp>): Table
    decreases |ups|
  {
    if ups == [] then daily else AfterAll(DailyCatchUp(daily, ups[0].m, ups[0].hourly, ups[0].now), ups[1..])
  }

  /** Up to MAX(bucket) the daily table is final: no later catch-up, over whatever hourly rows,
      writes, changes or adds a row there. */
  lemma {:induction false} WrittenDaysAreFinal(daily: Table, m: int, ups: seq<CatchUp>, row: Key)
    requires IsMax(daily, m) && InSequence(daily, ups) && row.bucket <= m
    ensures var later := AfterAll(daily, ups);
            (row in later <==> row in daily) && (row in later ==> later[row] == daily[row])
    decreases |ups|
  {
    hide DayCells, DayKeys, DayOf;
    if ups != [] {
      var up := ups[0];
      var next := DailyCatchUp(daily, up.m, up.hourly, up.now);
      var m' := NextMax(daily, m, next);
      WrittenDaysAreFinal(next, m', ups[1..], row);
    }
  }

  /** The maximum of a table that only grows. */
  lemma NextMax(t: Table, m: int, t': Table) returns (m': int)
    requires IsMax(t, m) && t.Keys <= t'.Keys
    ensures IsMax(t', m') && (t != map[] ==> m <= m')
  {
    m' := 0;
    if t' != map[] {
      var k := Greatest(t'.Keys);
      m' := k.bucket;
      if t != map[] {
        var q :| q in t && q.bucket == m;
        assert q in t';
      }
    }
  }

  lemma {:induction false} Greatest(keys: set<Key>) returns (k: Key)
    requires keys != {}
    ensures k in keys && forall q :: q in keys ==> q.bucket <= k.bucket
    decreases keys
  {
    var some := SomeElement(keys);
    var rest := keys - {some};
    assert forall q :: q in keys ==> q == some || q in rest;
    k := some;
    if rest != {} {
      var best := Greatest(rest);
      if best.bucket > some.bucket { k := best; }
    }
  }

  /** Daily catch-up that has reached a day before one of its hours is counted loses that hour for
      good: whatever catch-ups follow, the daily row stays short by exactly that hour, and if the
      group had no other hour that day there never is a row. */
  lemma TooEarlyForGood(daily: Table, m: int, t: Table, k: Key, c: Cells, ups: seq<CatchUp>)
    requires IsMax(daily, m) && daily == DayRollup(t, 0, m) && k !in t && k.bucket >= DAY && k.bucket % HOUR == 0
    requires DayOf(k.bucket) <= m && InSequence(daily, ups)
    ensures var row, later := DayKeyOf(k), AfterAll(daily, ups);
            var due := DayCells(t[k := c], row.bucket, row.group);
            && (row in later <==> row in DayKeys(t))
            && (row in later ==>
                  && later[row].requests == due.requests - c.requests
                  && later[row].successes == due.successes - c.successes
                  && later[row].failures == due.failures - c.failures
                  && later[row].totalMs == due.totalMs - c.totalMs
                  && later[row].prompt == due.prompt - c.prompt
                  && later[row].output == due.output - c.output)
  {
    hide DayOf, SumHours, DayKeys, InSequence, IsMax;
    FirstDay(k.bucket);
    HourInDay(t, k, c);
    WrittenDaysAreFinal(daily, m, ups, DayKeyOf(k));
  }
}
