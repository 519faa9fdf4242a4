/** The statistics tables as functions of the request rows. */
module Stats {
  import opened Percentiles

  datatype Request = Request(ts: int, model: string, proxy: int, status: int, totalMs: int, prompt: int, output: int)

  datatype Group = Group(model: string, proxy: int)

  datatype Key = Key(bucket: int, group: Group)

  datatype Cells = Cells(requests: int, successes: int, failures: int, totalMs: int,
                         p50: int, p95: int, prompt: int, output: int)

  type Table = map<Key, Cells>

  const HOUR := 3600
  const DAY := 86400

  function HourOf(ts: int): int {
    ts - ts % HOUR
  }

  function DayOf(ts: int): int {
    ts - ts % DAY
  }

  function GroupOf(r: Request): Group {
    Group(r.model, r.proxy)
  }

  // ---------- Sums over raw requests ----------

  type Weight = Request -> int

  const ONE: Weight := (r: Request) => 1
  const OK: Weight := (r: Request) => if r.status == 200 then 1 else 0
  const BAD: Weight := (r: Request) => if r.status == 200 then 0 else 1
  const MS: Weight := (r: Request) => r.totalMs
  const PROMPT: Weight := (r: Request) => r.prompt
  const OUTPUT: Weight := (r: Request) => r.output

  predicate Counts(r: Request, lo: int, hi: int, g: Group) {
    lo <= r.ts < hi && GroupOf(r) == g
  }

  /** Sum of a weight over the requests of a group in [lo, hi). */
  function Weigh(rows: seq<Request>, lo: int, hi: int, g: Group, w: Weight): int {
    if rows == [] then 0
    else
      var last := rows[|rows| - 1];
      Weigh(rows[..|rows| - 1], lo, hi, g, w) + if Counts(last, lo, hi, g) then w(last) else 0
  }

  /** The latencies of a group in [lo, hi), in row order. */
  function Latencies(rows: seq<Request>, lo: int, hi: int, g: Group): seq<int> {
    if rows == [] then []
    else
      var last := rows[|rows| - 1];
      Latencies(rows[..|rows| - 1], lo, hi, g) + if Counts(last, lo, hi, g) then [last.totalMs] else []
  }

  function CellsOf(rows: seq<Request>, lo: int, hi: int, g: Group): Cells {
    var lat := Latencies(rows, lo, hi, g);
    Cells(Weigh(rows, lo, hi, g, ONE), Weigh(rows, lo, hi, g, OK), Weigh(rows, lo, hi, g, BAD),
          Weigh(rows, lo, hi, g, MS), P50(lat), P95(lat),
          Weigh(rows, lo, hi, g, PROMPT), Weigh(rows, lo, hi, g, OUTPUT))
  }

  /** Sums over adjacent spans add up. */
  lemma {:induction false} WeighSplit(rows: seq<Request>, lo: int, mid: int, hi: int, g: Group, w: Weight)
    requires lo <= mid <= hi
    ensures Weigh(rows, lo, hi, g, w) == Weigh(rows, lo, mid, g, w) + Weigh(rows, mid, hi, g, w)
  {
    if rows != [] { WeighSplit(rows[..|rows| - 1], lo, mid, hi, g, w); }
  }

  lemma {:induction false} SuccessesAndFailures(rows: seq<Request>, lo: int, hi: int, g: Group)
    ensures Weigh(rows, lo, hi, g, OK) + Weigh(rows, lo, hi, g, BAD) == Weigh(rows, lo, hi, g, ONE)
  {
    if rows != [] { SuccessesAndFailures(rows[..|rows| - 1], lo, hi, g); }
  }

  /** A row outside the span counts for nothing in it. */
  lemma WeighOutside(rows: seq<Request>, r: Request, lo: int, hi: int, g: Group)
    requires !(lo <= r.ts < hi)
    ensures CellsOf(rows + [r], lo, hi, g) == CellsOf(rows, lo, hi, g)
  {
    hide P50, P95;
    assert (rows + [r])[..|rows|] == rows;
    var lat := Latencies(rows, lo, hi, g);
    assert lat + [] == lat;
  }

  // ---------- The hourly table ----------

  function KeyOf(r: Request): Key {
    Key(HourOf(r.ts), GroupOf(r))
  }

  function KeysOf(rows: seq<Request>): set<Key> {
    set r | r in rows :: KeyOf(r)
  }

  /** One row for every group and hour with requests, for the hours in (after, upto]. */
  function Rollup(rows: seq<Request>, after: int, upto: int): Table {
    map k | k in KeysOf(rows) && after < k.bucket <= upto :: CellsOf(rows, k.bucket, k.bucket + HOUR, k.group)
  }

  /** MAX(bucket) of a table, or 0 for an empty one. */
  ghost predicate IsMax(t: Table, m: int) {
    if t == map[] then m == 0
    else (exists k :: k in t && k.bucket == m) && forall k :: k in t ==> k.bucket <= m
  }

  /** Buckets are whole spans of positive time. */
  ghost predicate Aligned(t: Table, span: int)
    requires span > 0
  {
    forall k :: k in t ==> k.bucket > 0 && k.bucket % span == 0
  }

  /** Requests are stamped by a clock that is past the first day of 1970. */
  ghost predicate Stamped(rows: seq<Request>) {
    forall r :: r in rows ==> r.ts >= DAY
  }

  /** What hourly catch-up makes of the table at `now`, when `m` is its MAX(bucket). */
  function HourlyCatchUp(t: Table, m: int, rows: seq<Request>, now: int): Table {
    t + Rollup(rows, m, HourOf(now) - HOUR)
  }

  lemma HourOfIs(ts: int)
    ensures HourOf(ts) <= ts < HourOf(ts) + HOUR && HourOf(ts) % HOUR == 0
  {
  }

  lemma DayOfIs(ts: int)
    ensures DayOf(ts) <= ts < DayOf(ts) + DAY && DayOf(ts) % DAY == 0 && DayOf(ts) % HOUR == 0
  {
    assert DayOf(ts) == DAY * (ts / DAY);
    assert DAY * (ts / DAY) == HOUR * (24 * (ts / DAY));
  }

  lemma HoursInOrder(a: int, b: int)
    requires a <= b
    ensures HourOf(a) <= HourOf(b)
  {
    assert HourOf(a) == HOUR * (a / HOUR) && HourOf(b) == HOUR * (b / HOUR);
  }

  /** Rows that were written are never changed. */
  lemma WrittenRowsStay(t: Table, m: int, rows: seq<Request>, now: int)
    requires IsMax(t, m)
    ensures forall k :: k in t ==> k in HourlyCatchUp(t, m, rows, now) && HourlyCatchUp(t, m, rows, now)[k] == t[k]
  {
  }

  lemma RollupSplit(rows: seq<Request>, lo: int, mid: int, hi: int)
    requires lo <= mid <= hi
    ensures Rollup(rows, lo, hi) == Rollup(rows, lo, mid) + Rollup(rows, mid, hi)
  {
    hide CellsOf;
  }

  lemma RollupTwice(t: Table, m: int, rows: seq<Request>, h1: int, m1: int, h2: int)
    requires IsMax(t, m) && h1 <= h2 && IsMax(t + Rollup(rows, m, h1), m1)
    requires forall k :: k in t || k in KeysOf(rows) ==> k.bucket > 0
    ensures t + Rollup(rows, m, h1) + Rollup(rows, m1, h2) == t + Rollup(rows, m, h2)
  {
    hide CellsOf, KeysOf;
    var once := t + Rollup(rows, m, h1);
    if t != map[] {
      var k :| k in t && k.bucket == m;
      assert k in once;
    }
    assert m <= m1;
    if once == map[] {
      assert m == m1 == 0;
    } else {
      var k :| k in once && k.bucket == m1;
      assert m1 == m || m1 <= h1;
    }
    assert forall k :: k in KeysOf(rows) && m < k.bucket <= h1 ==> k in once;
  }

  /** Catching up twice is catching up once, at the later time. */
  lemma CatchUpTwice(t: Table, m: int, rows: seq<Request>, t1: int, m1: int, t2: int)
    requires IsMax(t, m) && Aligned(t, HOUR) && Stamped(rows) && t1 <= t2
    requires IsMax(HourlyCatchUp(t, m, rows, t1), m1)
    ensures HourlyCatchUp(HourlyCatchUp(t, m, rows, t1), m1, rows, t2) == HourlyCatchUp(t, m, rows, t2)
  {
    hide CellsOf, HourOf, Rollup, IsMax, KeysOf;
    HoursInOrder(t1, t2);
    KeysArePositive(rows);
    RollupTwice(t, m, rows, HourOf(t1) - HOUR, m1, HourOf(t2) - HOUR);
  }

  lemma KeysArePositive(rows: seq<Request>)
    requires Stamped(rows)
    ensures forall k :: k in KeysOf(rows) ==> k.bucket > 0 && k.bucket % HOUR == 0
  {
    hide HourOf;
    forall r | r in rows
      ensures KeyOf(r).bucket > 0 && KeyOf(r).bucket % HOUR == 0
    {
      HourOfIs(r.ts);
    }
  }

  /** A request of an hour up to MAX(bucket) that arrives late is never counted. */
  lemma LateRowIsIgnored(t: Table, m: int, rows: seq<Request>, r: Request, now: int)
    requires HourOf(r.ts) <= m
    ensures HourlyCatchUp(t, m, rows + [r], now) == HourlyCatchUp(t, m, rows, now)
  {
    hide CellsOf, HourOf, KeysOf;
    var all, upto := rows + [r], HourOf(now) - HOUR;
    KeysSnoc(rows, r);
    forall k | k in KeysOf(rows) && m < k.bucket
      ensures CellsOf(all, k.bucket, k.bucket + HOUR, k.group) == CellsOf(rows, k.bucket, k.bucket + HOUR, k.group)
    {
      LaterHour(rows, k, r.ts);
      WeighOutside(rows, r, k.bucket, k.bucket + HOUR, k.group);
    }
    assert Rollup(all, m, upto) == Rollup(rows, m, upto);
  }

  lemma LaterHour(rows: seq<Request>, k: Key, ts: int)
    requires k in KeysOf(rows) && HourOf(ts) < k.bucket
    ensures ts < k.bucket
  {
    hide HourOf;
    var q :| q in rows && KeyOf(q) == k;
    HourOfIs(q.ts);
    HourOfIs(ts);
    HoursApart(HourOf(ts), k.bucket);
  }

  lemma HoursApart(a: int, b: int)
    requires a % HOUR == 0 && b % HOUR == 0 && a < b
    ensures a + HOUR <= b
  {
    assert a == HOUR * (a / HOUR) && b == HOUR * (b / HOUR);
  }

  lemma KeysSnoc(rows: seq<Request>, r: Request)
    ensures KeysOf(rows + [r]) == KeysOf(rows) + {KeyOf(r)}
  {
    forall k
      ensures k in KeysOf(rows + [r]) <==> k in KeysOf(rows) + {KeyOf(r)}
    {
      if k in KeysOf(rows) {
        var q :| q in rows && KeyOf(q) == k;
        assert q in rows + [r];
      }
      if k == KeyOf(r) { assert r in rows + [r]; }
    }
  }
}
