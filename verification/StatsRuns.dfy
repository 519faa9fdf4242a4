/** Roll-up over whole runs: requests arrive, catch-ups run, old requests are swept. */
module StatsRuns {
  import opened Percentiles
  import opened Stats

  // ---------- The daily table ----------

  type Field = Cells -> int

  const REQUESTS: Field := (c: Cells) => c.requests
  const SUCCESSES: Field := (c: Cells) => c.successes
  const FAILURES: Field := (c: Cells) => c.failures
  const TOTAL_MS: Field := (c: Cells) => c.totalMs
  const PROMPTS: Field := (c: Cells) => c.prompt
  const OUTPUTS: Field := (c: Cells) => c.output
  const P50_SUM: Field := (c: Cells) => if c.p50 > 0 then c.p50 else 0
  const P50_N: Field := (c: Cells) => if c.p50 > 0 then 1 else 0
  const P95_SUM: Field := (c: Cells) => if c.p95 > 0 then c.p95 else 0
  const P95_N: Field := (c: Cells) => if c.p95 > 0 then 1 else 0

  /** Sum of a field over the first `n` hours of a day. */
  function SumHours(t: Table, day: int, g: Group, n: nat, f: Field): int {
    if n == 0 then 0
    else
      var k := Key(day + HOUR * (n - 1), g);
      SumHours(t, day, g, n - 1, f) + if k in t then f(t[k]) else 0
  }

  function Average(sum: int, n: int): int {
    if n > 0 then sum / n else 0
  }

  function DayCells(t: Table, day: int, g: Group): Cells {
    Cells(SumHours(t, day, g, 24, REQUESTS), SumHours(t, day, g, 24, SUCCESSES), SumHours(t, day, g, 24, FAILURES),
          SumHours(t, day, g, 24, TOTAL_MS),
          Average(SumHours(t, day, g, 24, P50_SUM), SumHours(t, day, g, 24, P50_N)),
          Average(SumHours(t, day, g, 24, P95_SUM), SumHours(t, day, g, 24, P95_N)),
          SumHours(t, day, g, 24, PROMPTS), SumHours(t, day, g, 24, OUTPUTS))
  }

  function DayKeyOf(k: Key): Key {
    Key(DayOf(k.bucket), k.group)
  }

  function DayKeys(t: Table): set<Key> {
    set k | k in t :: DayKeyOf(k)
  }

  function DayRollup(t: Table, after: int, upto: int): Table {
    map k | k in DayKeys(t) && after < k.bucket <= upto :: DayCells(t, k.bucket, k.group)
  }

  function DailyCatchUp(daily: Table, m: int, hourly: Table, now: int): Table {
    daily + DayRollup(hourly, m, DayOf(now) - DAY)
  }

  // ---------- Retention ----------

  function Since(rows: seq<Request>, cutoff: int): (r: seq<Request>)
    ensures forall q :: q in r <==> q in rows && q.ts >= cutoff
  {
    if rows == [] then []
    else Since(rows[..|rows| - 1], cutoff) + if rows[|rows| - 1].ts >= cutoff then [rows[|rows| - 1]] else []
  }

  lemma {:induction false} SinceSince(rows: seq<Request>, a: int, b: int)
    requires a <= b
    ensures Since(Since(rows, a), b) == Since(rows, b)
  {
    if rows != [] {
      var init, last := rows[..|rows| - 1], rows[|rows| - 1];
      SinceSince(init, a, b);
      if last.ts >= a {
        var s := Since(init, a) + [last];
        assert s[..|s| - 1] == Since(init, a);
      } else {
        assert Since(init, a) + [] == Since(init, a) && Since(init, b) + [] == Since(init, b);
      }
    }
  }

  lemma SinceSnoc(rows: seq<Request>, r: Request, cutoff: int)
    ensures Since(rows + [r], cutoff) == Since(rows, cutoff) + if r.ts >= cutoff then [r] else []
  {
    assert (rows + [r])[..|rows|] == rows;
  }

  lemma CellsSince(rows: seq<Request>, cutoff: int, lo: int, hi: int, g: Group)
    requires cutoff <= lo
    ensures forall w: Weight :: Weigh(Since(rows, cutoff), lo, hi, g, w) == Weigh(rows, lo, hi, g, w)
    ensures Latencies(Since(rows, cutoff), lo, hi, g) == Latencies(rows, lo, hi, g)
    ensures CellsOf(Since(rows, cutoff), lo, hi, g) == CellsOf(rows, lo, hi, g)
  {
    forall w: Weight
      ensures Weigh(Since(rows, cutoff), lo, hi, g, w) == Weigh(rows, lo, hi, g, w)
    {
      WeighSince(rows, cutoff, lo, hi, g, w);
    }
    LatenciesSince(rows, cutoff, lo, hi, g);
    hide P50, P95, Weigh, Latencies, Since;
  }

  lemma {:induction false} WeighSince(rows: seq<Request>, cutoff: int, lo: int, hi: int, g: Group, w: Weight)
    requires cutoff <= lo
    ensures Weigh(Since(rows, cutoff), lo, hi, g, w) == Weigh(rows, lo, hi, g, w)
  {
    if rows != [] {
      var init, last := rows[..|rows| - 1], rows[|rows| - 1];
      WeighSince(init, cutoff, lo, hi, g, w);
      var s := Since(init, cutoff);
      assert (s + [last])[..|s|] == s && s + [] == s;
    }
  }

  lemma {:induction false} LatenciesSince(rows: seq<Request>, cutoff: int, lo: int, hi: int, g: Group)
    requires cutoff <= lo
    ensures Latencies(Since(rows, cutoff), lo, hi, g) == Latencies(rows, lo, hi, g)
  {
    if rows != [] {
      var init, last := rows[..|rows| - 1], rows[|rows| - 1];
      LatenciesSince(init, cutoff, lo, hi, g);
      var s := Since(init, cutoff);
      assert (s + [last])[..|s|] == s && s + [] == s;
      assert Latencies(init, lo, hi, g) + [] == Latencies(init, lo, hi, g);
    }
  }

  /** Closed-off rows have no part in the roll-up of later hours. */
  lemma RollupSince(rows: seq<Request>, h: int, upto: int)
    requires h % HOUR == 0
    ensures Rollup(Since(rows, h), h - HOUR, upto) == Rollup(rows, h - HOUR, upto)
  {
    hide CellsOf, HourOf;
    var late := Since(rows, h);
    forall k: Key | h - HOUR < k.bucket
      ensures k in KeysOf(late) <==> k in KeysOf(rows)
    {
      if k in KeysOf(rows) {
        var r :| r in rows && KeyOf(r) == k;
        HourOfIs(r.ts);
        if k.bucket < h { HoursApart(k.bucket, h); }
        assert r in late;
      }
    }
    forall k | k in KeysOf(rows) && h - HOUR < k.bucket
      ensures CellsOf(late, k.bucket, k.bucket + HOUR, k.group) == CellsOf(rows, k.bucket, k.bucket + HOUR, k.group)
    {
      var r :| r in rows && KeyOf(r) == k;
      HourOfIs(r.ts);
      if k.bucket < h { HoursApart(k.bucket, h); }
      CellsSince(rows, h, k.bucket, k.bucket + HOUR, k.group);
    }
  }

  // ---------- Runs ----------

  /** The tables, together with every request there ever was. Hours before `open` and days before
      `dailyOpen` are counted; a late request opens its hour and day again. */
  datatype Db = Db(raw: seq<Request>, hourly: Table, daily: Table, all: seq<Request>, open: int, dailyOpen: int)

  datatype Op =
    | Insert(r: Request)
    | Hourly(now: int, m: int)
    | Daily(now: int, m: int)
    | Sweep(now: int, days: int)

  function Step(db: Db, op: Op): Db {
    match op
    case Insert(r) =>
      db.(raw := db.raw + [r], all := db.all + [r],
          open := if r.ts < db.open then HourOf(r.ts) else db.open,
          dailyOpen := if r.ts < db.dailyOpen then DayOf(r.ts) else db.dailyOpen)
    case Hourly(now, m) => db.(hourly := HourlyCatchUp(db.hourly, m, db.raw, now), open := HourOf(now))
    case Daily(now, m) => db.(daily := DailyCatchUp(db.daily, m, db.hourly, now), dailyOpen := DayOf(now))
    case Sweep(now, days) => if days <= 0 then db else db.(raw := Since(db.raw, now - days * DAY))
  }

  /** A request that arrives late is after the last hour and the last day that have a row; the clock
      does not go back; daily catch-up runs when hourly catch-up has run since midnight, as at boot;
      a sweep deletes no request of an hour that is not counted. */
  ghost predicate Legal(db: Db, op: Op) {
    match op
    case Insert(r) =>
      && r.ts >= DAY
      && (r.ts < db.open ==> forall k :: k in db.hourly ==> k.bucket < HourOf(r.ts))
      && (r.ts < db.dailyOpen ==> forall k :: k in db.daily ==> k.bucket < DayOf(r.ts))
    case Hourly(now, m) => HourOf(now) >= db.open && IsMax(db.hourly, m)
    case Daily(now, m) => DayOf(now) >= db.dailyOpen && IsMax(db.daily, m) && db.open >= DayOf(now)
    case Sweep(now, days) => days > 0 ==> now - days * DAY <= db.open
  }

  ghost predicate Exact(db: Db) {
    && db.open % HOUR == 0 && db.dailyOpen % DAY == 0 && DAY <= db.dailyOpen <= db.open
    && Stamped(db.all)
    && (forall r :: r in db.raw ==> r in db.all)
    && Since(db.raw, db.open) == Since(db.all, db.open)
    && db.hourly == Rollup(db.all, 0, db.open - HOUR)
    && db.daily == DayRollup(db.hourly, 0, db.dailyOpen - DAY)
  }

  lemma SubsetOfKeys(raw: seq<Request>, all: seq<Request>)
    requires forall r :: r in raw ==> r in all
    ensures forall k :: k in KeysOf(raw) ==> k in KeysOf(all)
  {
  }

  /** What the table has and does not have. */
  lemma ClosedHours(raw: seq<Request>, all: seq<Request>, upto: int)
    requires Stamped(all) && forall r :: r in raw ==> r in all
    ensures forall k :: k in Rollup(all, 0, upto) ==> 0 < k.bucket <= upto
    ensures forall k :: k in KeysOf(raw) && k.bucket <= upto ==> k in Rollup(all, 0, upto)
  {
    hide CellsOf, HourOf, KeysOf;
    SubsetOfKeys(raw, all);
    KeysArePositive(all);
  }

  lemma NothingBetween(t: Table, m: int, rows: seq<Request>, upto: int)
    requires IsMax(t, m) && forall k :: k in KeysOf(rows) && k.bucket <= upto ==> k in t
    ensures Rollup(rows, m, upto) == map[]
  {
    hide CellsOf, KeysOf;
  }

  /** Starting from MAX(bucket) is as good as starting from the last closed hour. */
  lemma FromMax(t: Table, m: int, rows: seq<Request>, mid: int, upto: int)
    requires IsMax(t, m) && 0 <= mid <= upto
    requires forall k :: k in t ==> k.bucket <= mid
    requires forall k :: k in KeysOf(rows) && k.bucket <= mid ==> k in t
    ensures t + Rollup(rows, m, upto) == t + Rollup(rows, mid, upto)
  {
    hide Rollup, KeysOf;
    assert m <= mid;
    RollupSplit(rows, m, mid, upto);
    NothingBetween(t, m, rows, mid);
    assert map[] + Rollup(rows, mid, upto) == Rollup(rows, mid, upto);
  }

  /** What catch-up adds are the hours that were open before, and all of them. */
  lemma HourlyAdds(db: Db, now: int, m: int)
    requires Exact(db) && HourOf(now) >= db.open && IsMax(db.hourly, m)
    ensures var h, h' := db.open, HourOf(now);
            HourlyCatchUp(db.hourly, m, db.raw, now) == db.hourly + Rollup(db.all, h - HOUR, h' - HOUR)
            == Rollup(db.all, 0, h' - HOUR)
  {
    hide Rollup, HourOf, KeysOf, DayRollup, Since, IsMax, Stamped, DayOf;
    var h, h' := db.open, HourOf(now);
    RollupSince(db.raw, h, h' - HOUR);
    RollupSince(db.all, h, h' - HOUR);
    ClosedHours(db.raw, db.all, h - HOUR);
    FromMax(db.hourly, m, db.raw, h - HOUR, h' - HOUR);
    RollupSplit(db.all, 0, h - HOUR, h' - HOUR);
  }

  // ---------- Daily rows of closed days ----------

  lemma {:induction false} SumHoursSame(t: Table, t': Table, day: int, g: Group, n: nat, f: Field)
    requires forall k: Key :: k.bucket < day + HOUR * n ==> (k in t <==> k in t') && (k in t ==> t[k] == t'[k])
    ensures SumHours(t, day, g, n, f) == SumHours(t', day, g, n, f)
  {
    if n > 0 {
      var k := Key(day + HOUR * (n - 1), g);
      assert k.bucket < day + HOUR * n;
      SumHoursSame(t, t', day, g, n - 1, f);
    }
  }

  lemma DayCellsSame(t: Table, t': Table, day: int, g: Group)
    requires forall k: Key :: k.bucket < day + DAY ==> (k in t <==> k in t') && (k in t ==> t[k] == t'[k])
    ensures DayCells(t, day, g) == DayCells(t', day, g)
  {
    hide SumHours;
    SumHoursSame(t, t', day, g, 24, REQUESTS);
    SumHoursSame(t, t', day, g, 24, SUCCESSES);
    SumHoursSame(t, t', day, g, 24, FAILURES);
    SumHoursSame(t, t', day, g, 24, TOTAL_MS);
    SumHoursSame(t, t', day, g, 24, P50_SUM);
    SumHoursSame(t, t', day, g, 24, P50_N);
    SumHoursSame(t, t', day, g, 24, P95_SUM);
    SumHoursSame(t, t', day, g, 24, P95_N);
    SumHoursSame(t, t', day, g, 24, PROMPTS);
    SumHoursSame(t, t', day, g, 24, OUTPUTS);
  }

  /** Closed days do not change when later hours are added. */
  lemma DayRollupStable(t: Table, t': Table, upto: int)
    requires forall k: Key :: k.bucket < upto + DAY ==> (k in t <==> k in t') && (k in t ==> t[k] == t'[k])
    ensures DayRollup(t, 0, upto) == DayRollup(t', 0, upto)
  {
    hide DayOf, DayCells;
    forall k: Key | k.bucket <= upto
      ensures k in DayKeys(t) <==> k in DayKeys(t')
      ensures DayCells(t, k.bucket, k.group) == DayCells(t', k.bucket, k.group)
    {
      if k in DayKeys(t) {
        var q :| q in t && DayKeyOf(q) == k;
        DayOfIs(q.bucket);
        assert q in t';
      }
      if k in DayKeys(t') {
        var q :| q in t' && DayKeyOf(q) == k;
        DayOfIs(q.bucket);
        assert q in t;
      }
      DayCellsSame(t, t', k.bucket, k.group);
    }
  }

  lemma DaysInOrder(a: int, b: int)
    requires a <= b
    ensures DayOf(a) <= DayOf(b)
  {
    assert DayOf(a) == DAY * (a / DAY) && DayOf(b) == DAY * (b / DAY);
  }

  lemma DayRollupSplit(t: Table, lo: int, mid: int, hi: int)
    requires lo <= mid <= hi
    ensures DayRollup(t, lo, hi) == DayRollup(t, lo, mid) + DayRollup(t, mid, hi)
  {
    hide DayCells, DayKeys;
  }

  /** Daily catch-up completes the closed days. */
  lemma DailyAdds(daily: Table, hourly: Table, m: int, d: int, d': int)
    requires daily == DayRollup(hourly, 0, d) && IsMax(daily, m) && 0 <= d <= d'
    requires forall k :: k in DayKeys(hourly) ==> k.bucket > 0
    ensures daily + DayRollup(hourly, m, d') == DayRollup(hourly, 0, d')
  {
    hide DayCells, DayKeys;
    if daily != map[] {
      var k :| k in daily && k.bucket == m;
    }
    assert m <= d;
    assert forall k :: k in DayKeys(hourly) && k.bucket <= d ==> k in daily;
  }

  lemma DayKeysArePositive(rows: seq<Request>, upto: int)
    requires Stamped(rows)
    ensures forall k :: k in DayKeys(Rollup(rows, 0, upto)) ==> k.bucket > 0
  {
    hide HourOf, DayOf, CellsOf;
    var t := Rollup(rows, 0, upto);
    forall k | k in DayKeys(t)
      ensures k.bucket > 0
    {
      var q :| q in t && DayKeyOf(q) == k;
      var r :| r in rows && KeyOf(r) == q;
      HourOfIs(r.ts);
      if q.bucket < DAY { DayIsHours(); HoursApart(q.bucket, DAY); }
      FirstDay(q.bucket);
    }
  }

  lemma DayIsHours()
    ensures DAY % HOUR == 0
  {
  }

  lemma FirstDay(ts: int)
    requires ts >= DAY
    ensures DayOf(ts) > 0
  {
    DaysInOrder(DAY, ts);
  }

  // ---------- Every step keeps the tables exact ----------

  /** A request of an open hour changes nothing in the closed ones. */
  lemma InsertIntoOpenHour(rows: seq<Request>, r: Request, h: int)
    requires r.ts >= h && h % HOUR == 0
    ensures Rollup(rows + [r], 0, h - HOUR) == Rollup(rows, 0, h - HOUR)
  {
    hide CellsOf, HourOf, KeysOf;
    var all := rows + [r];
    KeysSnoc(rows, r);
    HourOfIs(r.ts);
    if HourOf(r.ts) < h { HoursApart(HourOf(r.ts), h); }
    forall k | k in KeysOf(rows) && k.bucket <= h - HOUR
      ensures CellsOf(all, k.bucket, k.bucket + HOUR, k.group) == CellsOf(rows, k.bucket, k.bucket + HOUR, k.group)
    {
      WeighOutside(rows, r, k.bucket, k.bucket + HOUR, k.group);
    }
  }

  lemma MaxIsAligned(t: Table, m: int, rows: seq<Request>)
    requires IsMax(t, m) && t == Rollup(rows, 0, m) && Stamped(rows)
    ensures m >= 0 && m % HOUR == 0
  {
    hide CellsOf, HourOf, KeysOf;
    KeysArePositive(rows);
  }

  /** A late request that catch-up cannot see is missing from its row. */
  lemma MissingFromRow(t: Table, m: int, rows: seq<Request>, r: Request, upto: int)
    requires t == Rollup(rows, 0, m) && 0 < HourOf(r.ts) <= m && HourOf(r.ts) <= upto
    ensures t + Rollup(rows, m, upto) != Rollup(rows + [r], 0, upto)
  {
    hide HourOf, Latencies, P50, P95;
    var all, k := rows + [r], KeyOf(r);
    assert r in all && k in KeysOf(all);
    HourOfIs(r.ts);
    assert all[..|rows|] == rows;
    assert Weigh(all, k.bucket, k.bucket + HOUR, k.group, ONE)
      == Weigh(rows, k.bucket, k.bucket + HOUR, k.group, ONE) + 1;
    var full, seen := Rollup(all, 0, upto), t + Rollup(rows, m, upto);
    assert full[k].requests == Weigh(all, k.bucket, k.bucket + HOUR, k.group, ONE);
    assert k in seen ==> seen[k].requests == Weigh(rows, k.bucket, k.bucket + HOUR, k.group, ONE);
  }

  /** Exactly when a request that arrives late, in an hour that is closed at the next catch-up, is
      counted by it: when no later hour, and not its own, has a row yet. */
  lemma LateRowIsCountedIff(t: Table, m: int, rows: seq<Request>, r: Request, now: int)
    requires IsMax(t, m) && Stamped(rows + [r]) && t == Rollup(rows, 0, m)
    requires HourOf(r.ts) <= HourOf(now) - HOUR
    ensures HourlyCatchUp(t, m, rows + [r], now) == Rollup(rows + [r], 0, HourOf(now) - HOUR) <==> m < HourOf(r.ts)
  {
    hide CellsOf, HourOf, KeysOf, Rollup, IsMax;
    var all, upto := rows + [r], HourOf(now) - HOUR;
    assert r in all;
    MaxIsAligned(t, m, rows);
    HourOfIs(r.ts);
    if m < HourOf(r.ts) {
      HoursApart(m, HourOf(r.ts));
      InsertIntoOpenHour(rows, r, m + HOUR);
      RollupSplit(all, 0, m, upto);
    } else {
      LateRowIsIgnored(t, m, rows, r, now);
      FirstHour(r.ts);
      MissingFromRow(t, m, rows, r, upto);
    }
  }

  lemma FirstHour(ts: int)
    requires ts >= DAY
    ensures HourOf(ts) > 0
  {
    HoursInOrder(DAY, ts);
    assert HourOf(DAY) == DAY;
  }

  lemma InsertKeepsExact(db: Db, r: Request)
    requires Exact(db) && Legal(db, Insert(r))
    ensures Exact(Step(db, Insert(r)))
  {
    hide Rollup, HourOf, DayRollup, DayOf, Since;
    var h := if r.ts < db.open then HourOf(r.ts) else db.open;
    if r.ts < db.open {
      LateHour(db, r.ts);
      Reopen(db, h);
    }
    if r.ts < db.dailyOpen {
      LateDay(r.ts, db.dailyOpen);
      ReopenDays(db.daily, db.hourly, db.dailyOpen, DayOf(r.ts));
    }
    SinceSnoc(db.raw, r, h);
    SinceSnoc(db.all, r, h);
    InsertIntoOpenHour(db.all, r, h);
  }

  lemma LateHour(db: Db, ts: int)
    requires DAY <= ts < db.open && db.open % HOUR == 0
    ensures var h := HourOf(ts);
            DAY <= h <= ts && h % HOUR == 0 && h < db.open && (ts < db.dailyOpen ==> DayOf(ts) <= h)
    ensures db.dailyOpen <= ts && db.dailyOpen % DAY == 0 ==> db.dailyOpen <= HourOf(ts)
  {
    hide HourOf, DayOf;
    HourOfIs(ts);
    HoursInOrder(DAY, ts);
    assert HourOf(DAY) == DAY by { FirstDayIsAnHour(); }
    DayBeforeHour(ts);
    if db.dailyOpen <= ts && db.dailyOpen % DAY == 0 {
      HoursInOrder(db.dailyOpen, ts);
      DaysAreHours(db.dailyOpen);
    }
  }

  lemma FirstDayIsAnHour()
    ensures HourOf(DAY) == DAY
  {
  }

  lemma DaysAreHours(day: int)
    requires day % DAY == 0
    ensures HourOf(day) == day && day % HOUR == 0
  {
    assert day == DAY * (day / DAY) == HOUR * (24 * (day / DAY));
  }

  lemma LateDay(ts: int, dailyOpen: int)
    requires DAY <= ts < dailyOpen && dailyOpen % DAY == 0
    ensures DAY <= DayOf(ts) < dailyOpen && DayOf(ts) % DAY == 0
  {
    hide DayOf;
    DayOfIs(ts);
    FirstDay(ts);
    if DayOf(ts) < DAY { DaysApart(DayOf(ts), DAY); }
  }

  lemma DaysApart(a: int, b: int)
    requires a % DAY == 0 && b % DAY == 0
    ensures a < b ==> a + DAY <= b
  {
    assert a == DAY * (a / DAY) && b == DAY * (b / DAY);
  }

  /** Hours without a row, after all that have one, can be opened again: nothing waits in them. */
  lemma Reopen(db: Db, h: int)
    requires Exact(db) && DAY <= h <= db.open && h % HOUR == 0
    requires forall k :: k in db.hourly ==> k.bucket < h
    ensures Since(db.raw, h) == Since(db.all, h) && db.hourly == Rollup(db.all, 0, h - HOUR)
  {
    hide Rollup, DayRollup, Since;
    forall r | r in db.all
      ensures r.ts < h || r.ts >= db.open
    {
      if r.ts < db.open {
        RequestIsRolledUp(db.all, r, db.open);
        HourOfIs(r.ts);
        if h <= r.ts { HoursInOrder(h, r.ts); }
      }
    }
    SinceSame(db.raw, h, db.open);
    SinceSame(db.all, h, db.open);
    RollupUpTo(db.all, h, db.open);
  }

  lemma {:induction false} SinceSame(rows: seq<Request>, a: int, b: int)
    requires a <= b && forall r :: r in rows ==> r.ts < a || r.ts >= b
    ensures Since(rows, a) == Since(rows, b)
  {
    if rows != [] { SinceSame(rows[..|rows| - 1], a, b); }
  }

  lemma RollupUpTo(rows: seq<Request>, h: int, open: int)
    requires h % HOUR == 0 && h <= open && Stamped(rows)
    requires forall k :: k in Rollup(rows, 0, open - HOUR) ==> k.bucket < h
    ensures Rollup(rows, 0, open - HOUR) == Rollup(rows, 0, h - HOUR)
  {
    hide CellsOf, HourOf, KeysOf;
    KeysArePositive(rows);
    forall k | k in KeysOf(rows) && k.bucket < h
      ensures k.bucket <= h - HOUR
    {
      HoursApart(k.bucket, h);
    }
  }

  /** Days without a row, after all that have one, can be opened again. */
  lemma ReopenDays(daily: Table, hourly: Table, open: int, day: int)
    requires daily == DayRollup(hourly, 0, open - DAY) && day <= open && day % DAY == 0
    requires forall k :: k in daily ==> k.bucket < day
    ensures daily == DayRollup(hourly, 0, day - DAY)
  {
    hide DayCells, DayOf;
    forall k | k in DayKeys(hourly) && k.bucket < day
      ensures k.bucket <= day - DAY
    {
      var q :| q in hourly && DayKeyOf(q) == k;
      DayOfIs(q.bucket);
      DaysApart(k.bucket, day);
    }
  }

  lemma SinceLater(raw: seq<Request>, all: seq<Request>, h: int, h': int)
    requires Since(raw, h) == Since(all, h) && h <= h'
    ensures Since(raw, h') == Since(all, h')
  {
    hide Since;
    SinceSince(raw, h, h');
    SinceSince(all, h, h');
  }

  lemma HourlyKeepsExact(db: Db, now: int, m: int)
    requires Exact(db) && Legal(db, Hourly(now, m))
    ensures Exact(Step(db, Hourly(now, m)))
  {
    hide Rollup, HourOf, DayRollup, DayOf, IsMax, Since, Stamped;
    var h, h' := db.open, HourOf(now);
    HourlyAdds(db, now, m);
    SinceLater(db.raw, db.all, h, h');
    HourOfIs(now);
    OnlyOpenHours(db.all, h, h');
    DayRollupStable(db.hourly, Rollup(db.all, 0, h' - HOUR), db.dailyOpen - DAY);
  }

  lemma OnlyOpenHours(rows: seq<Request>, h: int, h': int)
    requires h <= h' && h % HOUR == 0
    ensures var t, t' := Rollup(rows, 0, h - HOUR), Rollup(rows, 0, h' - HOUR);
            forall k: Key :: k.bucket < h ==> (k in t <==> k in t') && (k in t ==> t[k] == t'[k])
  {
    hide CellsOf, HourOf;
    forall k | k in KeysOf(rows) && k.bucket < h
      ensures k.bucket <= h - HOUR
    {
      var r :| r in rows && KeyOf(r) == k;
      HourOfIs(r.ts);
      HoursApart(k.bucket, h);
    }
  }

  lemma DailyKeepsExact(db: Db, now: int, m: int)
    requires Exact(db) && Legal(db, Daily(now, m))
    ensures Exact(Step(db, Daily(now, m)))
  {
    hide Rollup, HourOf, DayRollup, DayOf, KeysOf, IsMax;
    DayOfIs(now);
    DayKeysArePositive(db.all, db.open - HOUR);
    DailyAdds(db.daily, db.hourly, m, db.dailyOpen - DAY, DayOf(now) - DAY);
  }

  lemma SweepKeepsExact(db: Db, now: int, days: int)
    requires Exact(db) && Legal(db, Sweep(now, days))
    ensures Exact(Step(db, Sweep(now, days)))
  {
    hide Rollup, HourOf, DayRollup, DayOf, KeysOf, Since, Stamped;
    if days > 0 { SinceSince(db.raw, now - days * DAY, db.open); }
  }

  /** A sweep within 23 hours of a catch-up at `at` deletes nothing that is still to be counted. */
  lemma TimelySweepIsLegal(db: Db, at: int, now: int, days: int)
    requires db.open == HourOf(at) && now <= at + 23 * HOUR
    ensures Legal(db, Sweep(now, days))
  {
    HourOfIs(at);
    if days > 0 { assert days * DAY >= DAY; }
  }

  lemma StepKeepsExact(db: Db, op: Op)
    requires Exact(db) && Legal(db, op)
    ensures Exact(Step(db, op))
  {
    hide Exact, Legal, Step;
    match op
    case Insert(r) => InsertKeepsExact(db, r);
    case Hourly(now, m) => HourlyKeepsExact(db, now, m);
    case Daily(now, m) => DailyKeepsExact(db, now, m);
    case Sweep(now, days) => SweepKeepsExact(db, now, days);
  }

  function Run(db: Db, ops: seq<Op>): Db
    decreases |ops|
  {
    if ops == [] then db else Run(Step(db, ops[0]), ops[1..])
  }

  ghost predicate AllLegal(db: Db, ops: seq<Op>)
    decreases |ops|
  {
    ops == [] || (Legal(db, ops[0]) && AllLegal(Step(db, ops[0]), ops[1..]))
  }

  lemma {:induction false} RunKeepsExact(db: Db, ops: seq<Op>)
    requires Exact(db) && AllLegal(db, ops)
    ensures Exact(Run(db, ops))
    decreases |ops|
  {
    hide Exact, Legal, Step;
    if ops != [] {
      StepKeepsExact(db, ops[0]);
      RunKeepsExact(Step(db, ops[0]), ops[1..]);
    }
  }

  /** What runs at boot, in its order, is legal in every state: hourly before daily before the sweep. */
  lemma BootIsLegal(db: Db, now: int, m: int, m': int, days: int)
    requires HourOf(now) >= db.open && DayOf(now) >= db.dailyOpen && IsMax(db.hourly, m) && IsMax(db.daily, m')
    ensures AllLegal(db, [Hourly(now, m), Daily(now, m'), Sweep(now, days)])
  {
    hide HourOf, DayOf, IsMax, Rollup, DayRollup, Since;
    var boot := [Hourly(now, m), Daily(now, m'), Sweep(now, days)];
    var db1 := Step(db, boot[0]);
    var db2 := Step(db1, boot[1]);
    DayBeforeHour(now);
    TimelySweepIsLegal(db2, now, now, days);
    assert Legal(db, boot[0]) && Legal(db1, boot[1]) && Legal(db2, boot[2]);
    assert boot[1..][1..] == [boot[2]] && boot[1..][0] == boot[1] && [boot[2]][1..] == [];
    assert AllLegal(Step(db2, boot[2]), []);
    assert AllLegal(db2, [boot[2]]);
    assert AllLegal(db1, boot[1..]);
  }

  lemma DayBeforeHour(ts: int)
    ensures DayOf(ts) <= HourOf(ts)
  {
    HourOfIs(ts);
    DayOfIs(ts);
    if HourOf(ts) < DayOf(ts) { HoursApart(HourOf(ts), DayOf(ts)); }
  }

  /** An empty database, started at a time past the first day. */
  function Empty(now: int): Db {
    Db([], map[], map[], [], HourOf(now), DAY)
  }

  lemma EmptyIsExact(now: int)
    requires now >= DAY
    ensures Exact(Empty(now))
  {
    HoursInOrder(DAY, now);
    HourOfIs(now);
    FirstDayIsAnHour();
  }

  // ---------- What the tables say ----------

  /** After any run, every counted hour of every group has exactly the row that its requests make,
      and no row where there were none. Deleting old requests has changed nothing. */
  lemma HourlyIsExact(start: int, ops: seq<Op>, k: Key)
    requires start >= DAY && AllLegal(Empty(start), ops)
    requires k.bucket % HOUR == 0 && 0 < k.bucket < Run(Empty(start), ops).open
    ensures var db := Run(Empty(start), ops);
            && (k in db.hourly <==> exists r :: r in db.all && Counts(r, k.bucket, k.bucket + HOUR, k.group))
            && (k in db.hourly ==> db.hourly[k] == CellsOf(db.all, k.bucket, k.bucket + HOUR, k.group)
                                   && db.hourly[k].successes + db.hourly[k].failures == db.hourly[k].requests)
  {
    hide AllLegal, Run, DayRollup, CellsOf, HourOf, Since;
    EmptyIsExact(start);
    RunKeepsExact(Empty(start), ops);
    var db := Run(Empty(start), ops);
    HoursApart(k.bucket, db.open);
    KeyMeans(db.all, k);
    RowAddsUp(db.all, k);
  }

  function Below(v: int): Weight {
    (r: Request) => if r.totalMs < v then 1 else 0
  }

  function UpTo(v: int): Weight {
    (r: Request) => if r.totalMs <= v then 1 else 0
  }

  lemma {:induction false} CountIfAppend(s: seq<int>, x: int, p: int -> bool)
    ensures CountIf(s + [x], p) == CountIf(s, p) + if p(x) then 1 else 0
  {
    if s == [] {
      assert s + [x] == [x] && [x][1..] == [];
    } else {
      assert (s + [x])[1..] == s[1..] + [x];
      CountIfAppend(s[1..], x, p);
    }
  }

  /** Counting latencies is weighing requests. */
  lemma {:induction false} LatenciesAreOfRequests(rows: seq<Request>, lo: int, hi: int, g: Group, p: int -> bool,
                                                  w: Weight)
    requires forall r: Request :: w(r) == if p(r.totalMs) then 1 else 0
    ensures CountIf(Latencies(rows, lo, hi, g), p) == Weigh(rows, lo, hi, g, w)
    ensures |Latencies(rows, lo, hi, g)| == Weigh(rows, lo, hi, g, ONE)
  {
    hide CountIf;
    if rows == [] {
      NothingCounts(p);
    } else {
      var last, before := rows[|rows| - 1], Latencies(rows[..|rows| - 1], lo, hi, g);
      LatenciesAreOfRequests(rows[..|rows| - 1], lo, hi, g, p, w);
      CountIfAppend(before, last.totalMs, p);
      assert before + [] == before;
    }
  }

  lemma NothingCounts(p: int -> bool)
    ensures CountIf([], p) == 0
  {
  }

  lemma RankOfRequests(rows: seq<Request>, lo: int, hi: int, g: Group, v: int, rank: nat)
    requires HasRank(Latencies(rows, lo, hi, g), v, rank)
    ensures Weigh(rows, lo, hi, g, Below(v)) <= rank < Weigh(rows, lo, hi, g, UpTo(v))
  {
    hide CountIf, Latencies, Weigh;
    LatenciesAreOfRequests(rows, lo, hi, g, y => y < v, Below(v));
    LatenciesAreOfRequests(rows, lo, hi, g, y => y <= v, UpTo(v));
  }

  /** After any run, the percentiles of an hourly row have their rank among the raw requests. */
  lemma HourlyPercentiles(start: int, ops: seq<Op>, k: Key)
    requires start >= DAY && AllLegal(Empty(start), ops) && k.bucket % HOUR == 0
    requires 0 < k.bucket < Run(Empty(start), ops).open && k in Run(Empty(start), ops).hourly
    ensures var db, lo, hi, g := Run(Empty(start), ops), k.bucket, k.bucket + HOUR, k.group;
            var c := db.hourly[k];
            && Weigh(db.all, lo, hi, g, Below(c.p50)) <= c.requests / 2 < Weigh(db.all, lo, hi, g, UpTo(c.p50))
            && Weigh(db.all, lo, hi, g, Below(c.p95)) <= c.requests * 95 / 100 < Weigh(db.all, lo, hi, g, UpTo(c.p95))
  {
    hide AllLegal, Run, Latencies, Weigh, P50, P95, HasRank;
    HourlyIsExact(start, ops, k);
    var db := Run(Empty(start), ops);
    var lat := Latencies(db.all, k.bucket, k.bucket + HOUR, k.group);
    LatenciesAreOfRequests(db.all, k.bucket, k.bucket + HOUR, k.group, y => true, ONE);
    RowCounts(db.all, k);
    PercentileRanks(lat);
    RankOfRequests(db.all, k.bucket, k.bucket + HOUR, k.group, P50(lat), |lat| / 2);
    RankOfRequests(db.all, k.bucket, k.bucket + HOUR, k.group, P95(lat), |lat| * 95 / 100);
  }

  lemma {:induction false} RowCounts(rows: seq<Request>, k: Key)
    requires exists r :: r in rows && Counts(r, k.bucket, k.bucket + HOUR, k.group)
    ensures Weigh(rows, k.bucket, k.bucket + HOUR, k.group, ONE) > 0
  {
    var n := |rows| - 1;
    assert rows == rows[..n] + [rows[n]];
    AllCountUp(rows[..n], k);
    if r :| r in rows[..n] && Counts(r, k.bucket, k.bucket + HOUR, k.group) {
      RowCounts(rows[..n], k);
    }
  }

  lemma {:induction false} AllCountUp(rows: seq<Request>, k: Key)
    ensures Weigh(rows, k.bucket, k.bucket + HOUR, k.group, ONE) >= 0
  {
    if rows != [] { AllCountUp(rows[..|rows| - 1], k); }
  }

  /** A percentile of a day is the mean, rounded down, of those of its hours that are positive; so it
      lies between any bounds of those, and is zero if there are none. */
  lemma DailyPercentiles(t: Table, day: int, g: Group, a: int, b: int)
    requires forall k :: k in t && k.group == g && day <= k.bucket < day + DAY ==>
               (t[k].p50 > 0 ==> a <= t[k].p50 <= b) && (t[k].p95 > 0 ==> a <= t[k].p95 <= b)
    ensures var c := DayCells(t, day, g);
            && MeanOf(c.p50, SumHours(t, day, g, 24, P50_SUM), SumHours(t, day, g, 24, P50_N), a, b)
            && MeanOf(c.p95, SumHours(t, day, g, 24, P95_SUM), SumHours(t, day, g, 24, P95_N), a, b)
  {
    hide SumHours;
    SumBetween(t, day, g, 24, P50_SUM, P50_N, a, b);
    SumBetween(t, day, g, 24, P95_SUM, P95_N, a, b);
    MeanBetween(SumHours(t, day, g, 24, P50_SUM), SumHours(t, day, g, 24, P50_N), a, b);
    MeanBetween(SumHours(t, day, g, 24, P95_SUM), SumHours(t, day, g, 24, P95_N), a, b);
  }

  /** `v` is the mean of `n` numbers from `a` to `b` with this sum, rounded down; 0 if there are none. */
  ghost predicate MeanOf(v: int, sum: int, n: int, a: int, b: int) {
    n >= 0 && if n == 0 then v == 0 else v * n <= sum < (v + 1) * n && a <= v <= b
  }

  lemma {:induction false} SumBetween(t: Table, day: int, g: Group, n: nat, sum: Field, count: Field, a: int, b: int)
    requires forall c: Cells :: count(c) == (if sum(c) > 0 then 1 else 0) && sum(c) >= 0
    requires forall k :: k in t && k.group == g && day <= k.bucket < day + HOUR * n ==>
               sum(t[k]) > 0 ==> a <= sum(t[k]) <= b
    ensures var s, m := SumHours(t, day, g, n, sum), SumHours(t, day, g, n, count);
            m >= 0 && a * m <= s <= b * m
  {
    if n > 0 {
      SumBetween(t, day, g, n - 1, sum, count, a, b);
      var m, k := SumHours(t, day, g, n - 1, count), Key(day + HOUR * (n - 1), g);
      MulNext(a, m);
      MulNext(b, m);
      assert k in t ==> count(t[k]) == (if sum(t[k]) > 0 then 1 else 0) && sum(t[k]) >= 0;
    }
  }

  lemma MulNext(a: int, m: int)
    ensures a * (m + 1) == a * m + a
  {
  }

  lemma MulOrder(x: int, y: int, n: int)
    requires n >= 0
    ensures x <= y ==> x * n <= y * n
  {
    if x <= y { assert (y - x) * n >= 0; }
  }

  lemma Quotient(sum: int, n: int)
    requires n > 0
    ensures var v := sum / n; v * n <= sum < v * n + n
  {
  }

  lemma MeanBetween(sum: int, n: int, a: int, b: int)
    requires n >= 0 && a * n <= sum <= b * n
    ensures MeanOf(Average(sum, n), sum, n, a, b)
  {
    if n > 0 {
      var v := sum / n;
      Quotient(sum, n);
      MulOrder(v + 1, a, n);
      MulOrder(b + 1, v, n);
    }
  }

  lemma RowAddsUp(rows: seq<Request>, k: Key)
    ensures var c := CellsOf(rows, k.bucket, k.bucket + HOUR, k.group); c.successes + c.failures == c.requests
  {
    hide Weigh, Latencies, P50, P95;
    SuccessesAndFailures(rows, k.bucket, k.bucket + HOUR, k.group);
  }

  lemma KeyMeans(rows: seq<Request>, k: Key)
    requires k.bucket % HOUR == 0
    ensures k in KeysOf(rows) <==> exists r :: r in rows && Counts(r, k.bucket, k.bucket + HOUR, k.group)
  {
    hide HourOf;
    if k in KeysOf(rows) {
      var r :| r in rows && KeyOf(r) == k;
      HourOfIs(r.ts);
      assert Counts(r, k.bucket, k.bucket + HOUR, k.group);
    }
    if r :| r in rows && Counts(r, k.bucket, k.bucket + HOUR, k.group) {
      HourOfIs(r.ts);
      if HourOf(r.ts) < k.bucket { HoursApart(HourOf(r.ts), k.bucket); }
      if k.bucket < HourOf(r.ts) { HoursApart(k.bucket, HourOf(r.ts)); }
      assert KeyOf(r) == k;
    }
  }

  lemma {:induction false} WeighNothing(rows: seq<Request>, lo: int, hi: int, g: Group, w: Weight)
    requires forall r :: r in rows ==> !Counts(r, lo, hi, g)
    ensures Weigh(rows, lo, hi, g, w) == 0
  {
    if rows != [] { WeighNothing(rows[..|rows| - 1], lo, hi, g, w); }
  }

  /** A field of the cells is the sum of a weight. */
  ghost predicate Measures(f: Field, w: Weight) {
    forall rows, lo, hi, g :: f(CellsOf(rows, lo, hi, g)) == Weigh(rows, lo, hi, g, w)
  }

  /** The hours of a closed day add up to its raw requests. */
  lemma {:induction false} HoursAddUp(rows: seq<Request>, h: int, day: int, g: Group, n: nat, f: Field, w: Weight)
    requires Measures(f, w) && day % HOUR == 0 && day > 0 && day + HOUR * n <= h
    ensures SumHours(Rollup(rows, 0, h - HOUR), day, g, n, f) == Weigh(rows, day, day + HOUR * n, g, w)
  {
    hide HourOf, KeysOf, CellsOf, Weigh;
    var t := Rollup(rows, 0, h - HOUR);
    if n == 0 {
      EmptySpan(rows, day, g, w);
    } else {
      var k := Key(day + HOUR * (n - 1), g);
      HoursAddUp(rows, h, day, g, n - 1, f, w);
      WeighSplit(rows, day, k.bucket, k.bucket + HOUR, g, w);
      assert k.bucket % HOUR == 0 by { MultipleOfHour(day, n - 1); }
      KeyMeans(rows, k);
      if k !in t {
        WeighNothing(rows, k.bucket, k.bucket + HOUR, g, w);
      }
    }
  }

  lemma MultipleOfHour(day: int, n: nat)
    requires day % HOUR == 0
    ensures (day + HOUR * n) % HOUR == 0
  {
  }

  lemma EmptySpan(rows: seq<Request>, at: int, g: Group, w: Weight)
    ensures Weigh(rows, at, at, g, w) == 0
  {
    WeighNothing(rows, at, at, g, w);
  }

  /** After any run, every daily row equals the sums over the raw requests of its day, and every
      request of a closed day is in one. */
  lemma DailyConservesRequests(start: int, ops: seq<Op>, k: Key)
    requires start >= DAY && AllLegal(Empty(start), ops)
    ensures var db := Run(Empty(start), ops);
            k in db.daily ==>
              var c, lo, hi, g := db.daily[k], k.bucket, k.bucket + DAY, k.group;
              && c.requests == Weigh(db.all, lo, hi, g, ONE) && c.successes == Weigh(db.all, lo, hi, g, OK)
              && c.failures == Weigh(db.all, lo, hi, g, BAD) && c.totalMs == Weigh(db.all, lo, hi, g, MS)
              && c.prompt == Weigh(db.all, lo, hi, g, PROMPT) && c.output == Weigh(db.all, lo, hi, g, OUTPUT)
              && c.successes + c.failures == c.requests
    ensures var db := Run(Empty(start), ops);
            forall r :: r in db.all && DayOf(r.ts) < db.dailyOpen ==>
              Key(DayOf(r.ts), GroupOf(r)) in db.daily
  {
    hide AllLegal, Run, CellsOf, HourOf, DayOf, Since, Weigh, SumHours;
    EmptyIsExact(start);
    RunKeepsExact(Empty(start), ops);
    var db := Run(Empty(start), ops);
    if k in db.daily {
      ClosedDay(db, k);
    }
    forall r | r in db.all && DayOf(r.ts) < db.dailyOpen
      ensures Key(DayOf(r.ts), GroupOf(r)) in db.daily
    {
      DayOfRequest(db, r);
    }
  }

  lemma FieldsMeasure()
    ensures Measures(REQUESTS, ONE) && Measures(SUCCESSES, OK) && Measures(FAILURES, BAD)
    ensures Measures(TOTAL_MS, MS) && Measures(PROMPTS, PROMPT) && Measures(OUTPUTS, OUTPUT)
  {
    hide Weigh, Latencies, P50, P95;
  }

  lemma ClosedDay(db: Db, k: Key)
    requires Exact(db) && k in db.daily
    ensures var c, lo, hi, g := db.daily[k], k.bucket, k.bucket + DAY, k.group;
            && c.requests == Weigh(db.all, lo, hi, g, ONE) && c.successes == Weigh(db.all, lo, hi, g, OK)
            && c.failures == Weigh(db.all, lo, hi, g, BAD) && c.totalMs == Weigh(db.all, lo, hi, g, MS)
            && c.prompt == Weigh(db.all, lo, hi, g, PROMPT) && c.output == Weigh(db.all, lo, hi, g, OUTPUT)
            && c.successes + c.failures == c.requests
  {
    hide HourOf, DayOf, Weigh, SumHours, Rollup, Measures, Since;
    var h, day, g := db.open, k.bucket, k.group;
    var q :| q in db.hourly && DayKeyOf(q) == k;
    DayOfIs(q.bucket);
    FieldsMeasure();
    HoursAddUp(db.all, h, day, g, 24, REQUESTS, ONE);
    HoursAddUp(db.all, h, day, g, 24, SUCCESSES, OK);
    HoursAddUp(db.all, h, day, g, 24, FAILURES, BAD);
    HoursAddUp(db.all, h, day, g, 24, TOTAL_MS, MS);
    HoursAddUp(db.all, h, day, g, 24, PROMPTS, PROMPT);
    HoursAddUp(db.all, h, day, g, 24, OUTPUTS, OUTPUT);
    SuccessesAndFailures(db.all, day, day + DAY, g);
  }

  lemma RequestIsRolledUp(all: seq<Request>, r: Request, h: int)
    requires Stamped(all) && r in all && r.ts < h && h % HOUR == 0
    ensures KeyOf(r) in Rollup(all, 0, h - HOUR)
  {
    hide HourOf, CellsOf;
    FirstHour(r.ts);
    HourOfIs(r.ts);
    HoursApart(HourOf(r.ts), h);
    assert KeyOf(r) in KeysOf(all);
  }

  lemma HourIsRolledUp(t: Table, k: Key, upto: int)
    requires k in t && 0 < DayOf(k.bucket) <= upto
    ensures DayKeyOf(k) in DayRollup(t, 0, upto)
  {
    hide DayOf, DayCells;
  }

  lemma DayOfRequest(db: Db, r: Request)
    requires Exact(db) && r in db.all && DayOf(r.ts) < db.dailyOpen
    ensures Key(DayOf(r.ts), GroupOf(r)) in db.daily
  {
    hide HourOf, DayOf, Rollup, DayRollup, Since;
    DayOfIs(r.ts);
    DaysApart(DayOf(r.ts), db.dailyOpen);
    FirstDay(r.ts);
    RequestIsRolledUp(db.all, r, db.open);
    DayOfHour(r.ts);
    HourIsRolledUp(db.hourly, KeyOf(r), db.dailyOpen - DAY);
  }

  lemma DayOfHour(ts: int)
    ensures DayOf(HourOf(ts)) == DayOf(ts)
  {
    HourOfIs(ts);
    DayOfIs(ts);
    var d := DayOf(ts);
    if HourOf(ts) < d { HoursApart(HourOf(ts), d); }
    DayIs(HourOf(ts), d);
  }

  lemma DayIs(ts: int, d: int)
    requires d % DAY == 0 && d <= ts < d + DAY
    ensures DayOf(ts) == d
  {
  }
}
