/** The cookie pool: which account is picked, how its health is kept, and who may change its cookie. */
module Accounts {
  import opened Text
  import opened CookieMerge

  datatype Account = Account(cookie: string, enabled: bool, lastUsed: int, lastOk: int, failCount: int, proxyId: int)

  type Rows = map<int, Account>

  const MAX_AUTH_FAILURES := 3

  // ---------- Picking ----------

  predicate Eligible(rows: Rows, skip: set<int>, id: int) {
    id in rows && rows[id].enabled && id !in skip
  }

  /** ORDER BY fail_count, last_used_at, id */
  predicate Before(rows: Rows, a: int, b: int)
    requires a in rows && b in rows
  {
    var x, y := rows[a], rows[b];
    || x.failCount < y.failCount
    || (x.failCount == y.failCount && x.lastUsed < y.lastUsed)
    || (x.failCount == y.failCount && x.lastUsed == y.lastUsed && a <= b)
  }

  ghost predicate IsPick(rows: Rows, skip: set<int>, r: Option<int>) {
    if r.Some? then
      Eligible(rows, skip, r.value) && forall id :: Eligible(rows, skip, id) ==> Before(rows, r.value, id)
    else
      forall id :: !Eligible(rows, skip, id)
  }

  function Touch(rows: Rows, r: Option<int>, now: int): Rows {
    if r.Some? && r.value in rows then rows[r.value := rows[r.value].(lastUsed := now)] else rows
  }

  // ---------- Health ----------

  function IsAuthFailure(status: int): bool {
    status == 401 || status == 403
  }

  /** markCookieByStatus, markAccountResult and autoDisableIfDead on one row. */
  function Marked(a: Account, status: int, now: int): Account {
    if status == 200 then a.(lastOk := now, failCount := 0)
    else if IsAuthFailure(status) then
      var b := a.(failCount := a.failCount + 1);
      if b.enabled && b.failCount >= MAX_AUTH_FAILURES then b.(enabled := false) else b
    else a
  }

  // ---------- Steps ----------

  datatype AccountStep =
    | Pick(skip: set<int>, now: int, picked: Option<int>)
    | Mark(id: int, status: int, now: int)
    | Bind(id: int, proxyId: int)
    | UpdateCookie(id: int, cookie: string, readOk: bool)

  /** The row that an id has, changed; ids that are not positive name no row. */
  function Changed(rows: Rows, id: int, a: Account -> Account): Rows {
    if id > 0 && id in rows then rows[id := a(rows[id])] else rows
  }

  function CookieAfter(cur: string, cookie: string, readOk: bool): string {
    if cookie == "" || (readOk && CookieIdentity(cookie) != CookieIdentity(cur)) then cur else cookie
  }

  function Apply(rows: Rows, step: AccountStep): Rows {
    match step
    case Pick(_, now, picked) => Touch(rows, picked, now)
    case Mark(id, status, now) => Changed(rows, id, a => Marked(a, status, now))
    case Bind(id, proxyId) => Changed(rows, id, (a: Account) => a.(proxyId := proxyId))
    case UpdateCookie(id, cookie, readOk) =>
      Changed(rows, id, (a: Account) => a.(cookie := CookieAfter(a.cookie, cookie, readOk)))
  }

  ghost predicate Legal(rows: Rows, step: AccountStep) {
    step.Pick? ==> IsPick(rows, step.skip, step.picked)
  }

  function Run(rows: Rows, steps: seq<AccountStep>): Rows
    decreases |steps|
  {
    if steps == [] then rows else Run(Apply(rows, steps[0]), steps[1..])
  }

  lemma {:induction false} RunKeepsIds(rows: Rows, steps: seq<AccountStep>)
    ensures Run(rows, steps).Keys == rows.Keys
    decreases |steps|
  {
    if steps != [] { RunKeepsIds(Apply(rows, steps[0]), steps[1..]); }
  }

  // ---------- Identity ----------

  /** A refresh changes the identity of its row exactly when the guard could not read the row. */
  lemma RefreshChangesIdentityIff(rows: Rows, id: int, cookie: string, readOk: bool)
    requires id > 0 && id in rows
    ensures CookieIdentity(Apply(rows, UpdateCookie(id, cookie, readOk))[id].cookie) != CookieIdentity(rows[id].cookie)
       <==> !readOk && cookie != "" && CookieIdentity(cookie) != CookieIdentity(rows[id].cookie)
  {
    hide CookieIdentity;
  }

  /** In every run whose guards can read, every account keeps its identity, whatever cookies are
      written back from whatever snapshots. */
  lemma {:induction false} IdentityIsInvariant(rows: Rows, steps: seq<AccountStep>, id: int)
    requires id in rows
    requires forall step :: step in steps && step.UpdateCookie? ==> step.readOk
    ensures id in Run(rows, steps) && CookieIdentity(Run(rows, steps)[id].cookie) == CookieIdentity(rows[id].cookie)
    decreases |steps|
  {
    hide CookieIdentity;
    if steps != [] {
      assert steps[0] in steps;
      IdentityIsInvariant(Apply(rows, steps[0]), steps[1..], id);
    }
  }

  lemma NotEmpty(a: string, b: string)
    ensures TwoValues(a, b) != ""
  {
  }

  /** Without the read of the row a refresh can put another account's cookie into it. */
  lemma UnreadRowTakesAnotherAccount()
    ensures var mine, other := TwoValues("a", ""), TwoValues("b", "");
            CookieIdentity(CookieAfter(mine, other, false)) != CookieIdentity(mine)
  {
    hide CookieIdentity, TwoValues;
    IdentityOfTwo("a", "");
    IdentityOfTwo("b", "");
    NotEmpty("b", "");
    assert ("a" + "|" + "")[0] == 'a' && ("b" + "|" + "")[0] == 'b';
  }

  /** A merge of headers that set neither identity cookie is always written back. */
  lemma OrdinaryRefreshIsAccepted(cur: string, headers: seq<string>, extra: seq<string>, merged: string, readOk: bool)
    requires merged != "" && Merged(cur, headers, extra, merged)
    requires SAPISID !in Updates(headers) && PSID !in Updates(headers)
    ensures CookieAfter(cur, merged, readOk) == merged
  {
    hide CookieIdentity, Merged, Updates;
    MergeKeepsIdentity(cur, headers, extra, merged);
  }

  // ---------- Health over runs ----------

  /** The statuses reported for one account, in order. */
  function StatusesOf(steps: seq<AccountStep>, id: int): seq<int> {
    if steps == [] then []
    else (if steps[0].Mark? && steps[0].id == id then [steps[0].status] else []) + StatusesOf(steps[1..], id)
  }

  /** Authentication failures since the last success. */
  function Streak(statuses: seq<int>): nat {
    if statuses == [] then 0
    else
      var last, before := statuses[|statuses| - 1], Streak(statuses[..|statuses| - 1]);
      if last == 200 then 0 else if last == 401 || last == 403 then before + 1 else before
  }

  /** The account after `statuses`, if it started healthy, and nothing else touched its health. */
  ghost predicate HealthIs(a: Account, statuses: seq<int>) {
    && a.failCount == Streak(statuses)
    && (a.enabled <==> forall n :: 0 <= n <= |statuses| ==> Streak(statuses[..n]) < 3)
  }

  lemma MarkKeepsHealth(a: Account, statuses: seq<int>, status: int, now: int)
    requires HealthIs(a, statuses)
    ensures HealthIs(Marked(a, status, now), statuses + [status])
  {
    var all := statuses + [status];
    assert all[..|statuses|] == statuses;
    forall n | 0 <= n <= |statuses|
      ensures all[..n] == statuses[..n]
    {
    }
    assert all[..|all|] == all;
  }

  lemma {:induction false} HealthOverRun(rows: Rows, steps: seq<AccountStep>, id: int, before: seq<int>)
    requires id > 0 && id in rows && HealthIs(rows[id], before)
    ensures id in Run(rows, steps) && HealthIs(Run(rows, steps)[id], before + StatusesOf(steps, id))
    decreases |steps|
  {
    hide Marked, HealthIs, CookieAfter, Streak;
    if steps == [] {
      assert before + [] == before;
    } else {
      var step, next := steps[0], Apply(rows, steps[0]);
      var rest := StatusesOf(steps[1..], id);
      if step.Mark? && step.id == id {
        MarkKeepsHealth(rows[id], before, step.status, step.now);
        HealthOverRun(next, steps[1..], id, before + [step.status]);
        assert before + ([step.status] + rest) == before + [step.status] + rest;
      } else {
        OtherFieldsKeepHealth(rows[id], next[id], before);
        HealthOverRun(next, steps[1..], id, before);
        assert [] + rest == rest;
      }
    }
  }

  lemma OtherFieldsKeepHealth(a: Account, b: Account, statuses: seq<int>)
    requires HealthIs(a, statuses) && b.failCount == a.failCount && b.enabled == a.enabled
    ensures HealthIs(b, statuses)
  {
  }

  /** An account is switched off exactly when at some point three authentication failures were
      reported for it with no success between them; other errors never count against it. */
  lemma DisabledIffThreeInARow(rows: Rows, steps: seq<AccountStep>, id: int)
    requires id > 0 && id in rows && rows[id].enabled && rows[id].failCount == 0
    ensures var ss := StatusesOf(steps, id);
            id in Run(rows, steps) &&
            (!Run(rows, steps)[id].enabled <==> exists n :: 0 <= n <= |ss| && Streak(ss[..n]) >= 3)
  {
    HealthOverRun(rows, steps, id, []);
    assert [] + StatusesOf(steps, id) == StatusesOf(steps, id);
  }

  // ---------- Least recently used ----------

  /** Successive picks, with their times; `picks` are what the pool gave. */
  ghost predicate PickRun(rows: Rows, times: seq<int>, picks: seq<int>)
    decreases |times|
  {
    && |picks| == |times|
    && (times == [] || (IsPick(rows, {}, Some(picks[0]))
                        && PickRun(Touch(rows, Some(picks[0]), times[0]), times[1..], picks[1..])))
  }

  /** Picks go to accounts with the fewest failures, whatever was picked before. */
  lemma {:induction false} PicksAreHealthiest(rows: Rows, times: seq<int>, picks: seq<int>, i: nat, id: int)
    requires PickRun(rows, times, picks) && i < |picks| && Eligible(rows, {}, id)
    ensures Eligible(rows, {}, picks[i]) && rows[picks[i]].failCount <= rows[id].failCount
    decreases |times|
  {
    if i > 0 { PicksAreHealthiest(Touch(rows, Some(picks[0]), times[0]), times[1..], picks[1..], i - 1, id); }
  }

  ghost predicate EquallyHealthy(rows: Rows) {
    forall a, b :: Eligible(rows, {}, a) && Eligible(rows, {}, b) ==> rows[a].failCount == rows[b].failCount
  }

  /** Enabled accounts that were last used before `t`. */
  ghost function NotSince(rows: Rows, t: int): set<int> {
    set id | id in rows && rows[id].enabled && rows[id].lastUsed < t
  }

  /** While there are accounts that were not used since `t`, picks at `t` or later take those, and
      each of them once. */
  lemma {:induction false} PicksAreDistinct(rows: Rows, t: int, times: seq<int>, picks: seq<int>)
    requires EquallyHealthy(rows) && PickRun(rows, times, picks)
    requires forall i :: 0 <= i < |times| ==> times[i] >= t
    requires |times| <= |NotSince(rows, t)|
    ensures forall i :: 0 <= i < |picks| ==> picks[i] in NotSince(rows, t)
    ensures forall i, j :: 0 <= i < j < |picks| ==> picks[i] != picks[j]
    decreases |times|
  {
    if times != [] {
      var stale, x := NotSince(rows, t), picks[0];
      var next := Touch(rows, Some(x), times[0]);
      assert stale != {};
      var y := SomeElement(stale);
      assert Eligible(rows, {}, y);
      assert Before(rows, x, y);
      assert x in stale;
      assert NotSince(next, t) == stale - {x};
      TouchKeepsHealth(rows, x, times[0]);
      PicksAreDistinct(next, t, times[1..], picks[1..]);
      forall i, j | 0 <= i < j < |picks|
        ensures picks[i] != picks[j]
      {
        assert picks[j] == picks[1..][j - 1];
        if i > 0 { assert picks[i] == picks[1..][i - 1]; }
      }
      forall i | 0 <= i < |picks|
        ensures picks[i] in stale
      {
        if i > 0 { assert picks[i] == picks[1..][i - 1]; }
      }
    }
  }

  lemma TouchKeepsHealth(rows: Rows, x: int, now: int)
    requires EquallyHealthy(rows)
    ensures EquallyHealthy(Touch(rows, Some(x), now))
  {
    var next := Touch(rows, Some(x), now);
    forall a | Eligible(next, {}, a)
      ensures Eligible(rows, {}, a) && next[a].failCount == rows[a].failCount
    {
    }
  }

  /** With a clock that has moved on since the last use of any of the n enabled accounts, any n
      consecutive picks are n different accounts. */
  lemma LeastRecentlyUsedRotates(rows: Rows, times: seq<int>, picks: seq<int>)
    requires EquallyHealthy(rows) && PickRun(rows, times, picks) && times != []
    requires forall i :: 0 <= i < |times| ==> times[0] <= times[i]
    requires forall id :: Eligible(rows, {}, id) ==> rows[id].lastUsed < times[0]
    requires |times| <= |set id | id in rows && rows[id].enabled|
    ensures forall i, j :: 0 <= i < j < |picks| ==> picks[i] != picks[j]
  {
    assert NotSince(rows, times[0]) == set id | id in rows && rows[id].enabled by {
      forall id | id in rows && rows[id].enabled
        ensures rows[id].lastUsed < times[0]
      {
        assert Eligible(rows, {}, id);
      }
    }
    PicksAreDistinct(rows, times[0], times, picks);
  }

  /** The strict order of last use and id, between an account and one last used at `t`. */
  predicate Waits(rows: Rows, z: int, t: int, x: int)
    requires z in rows
  {
    rows[z].lastUsed < t || (rows[z].lastUsed == t && z < x)
  }

  /** `order` lists the accounts of `ids`, least recently used first. */
  ghost predicate Queue(rows: Rows, ids: set<int>, order: seq<int>) {
    && (forall x :: x in order <==> x in ids)
    && (forall x :: x in ids ==> x in rows)
    && (forall i, j :: 0 <= i < j < |order| ==> Waits(rows, order[i], rows[order[j]].lastUsed, order[j]))
  }

  lemma {:induction false} HasLeast(rows: Rows, ids: set<int>) returns (x: int)
    requires ids != {} && forall id :: id in ids ==> id in rows
    ensures x in ids && forall y :: y in ids && y != x ==> Waits(rows, x, rows[y].lastUsed, y)
    decreases ids
  {
    var some := SomeElement(ids);
    var rest := ids - {some};
    assert forall y :: y in ids <==> y == some || y in rest;
    if rest == {} {
      x := some;
    } else {
      var y := HasLeast(rows, rest);
      x := if Waits(rows, some, rows[y].lastUsed, y) then some else y;
    }
  }

  lemma {:induction false} HasQueue(rows: Rows, ids: set<int>) returns (order: seq<int>)
    requires forall id :: id in ids ==> id in rows
    ensures Queue(rows, ids, order) && |order| == |ids|
    decreases ids
  {
    if ids == {} {
      order := [];
    } else {
      var x := HasLeast(rows, ids);
      var rest := HasQueue(rows, ids - {x});
      order := [x] + rest;
      assert |ids| == |rest| + 1;
      assert forall y :: y in order <==> y == x || y in rest;
      forall i, j | 0 <= i < j < |order|
        ensures Waits(rows, order[i], rows[order[j]].lastUsed, order[j])
      {
        assert order[j] == rest[j - 1] && rest[j - 1] in rest;
        if i > 0 { assert order[i] == rest[i - 1]; }
      }
    }
  }

  ghost predicate Distinct(s: seq<int>) {
    forall i, j :: 0 <= i < j < |s| ==> s[i] != s[j]
  }

  /** Every account that is still to come is less recently used than every account that was used:
      those of `used` before, and those of the queue at their `times`. */
  ghost predicate InTime(rows: Rows, used: set<int>, order: seq<int>, times: seq<int>)
    requires |times| <= |order| && (forall x :: x in order ==> x in rows) && forall x :: x in used ==> x in rows
  {
    && (forall i, u :: 0 <= i < |times| && u in used ==> Waits(rows, order[i], rows[u].lastUsed, u))
    && (forall i, j :: 0 <= j < i < |times| ==> Waits(rows, order[i], times[j], order[j]))
  }

  lemma FirstInQueue(rows: Rows, used: set<int>, order: seq<int>, x: int)
    requires EquallyHealthy(rows) && IsPick(rows, {}, Some(x)) && x !in used && order != []
    requires Queue(rows, (set id | id in rows && rows[id].enabled) - used, order)
    ensures x == order[0]
  {
    var y := order[0];
    assert y in order && Eligible(rows, {}, y) && Before(rows, x, y);
    assert x in order;
    assert forall j :: 0 < j < |order| ==> Waits(rows, order[0], rows[order[j]].lastUsed, order[j]);
    var i :| 0 <= i < |order| && order[i] == x;
  }

  lemma PickOfUsed(rows: Rows, used: set<int>, order: seq<int>, times: seq<int>, x: int)
    requires EquallyHealthy(rows) && IsPick(rows, {}, Some(x)) && x in used && times != [] && |times| <= |order|
    requires used <= (set id | id in rows && rows[id].enabled)
    requires Queue(rows, (set id | id in rows && rows[id].enabled) - used, order)
    ensures !InTime(rows, used, order, times)
  {
    var y := order[0];
    assert y in order && Eligible(rows, {}, y) && Before(rows, x, y);
    assert !Waits(rows, y, rows[x].lastUsed, x);
  }

  /** One pick later the condition is the same one, with one more account used. */
  lemma InTimeStep(rows: Rows, used: set<int>, order: seq<int>, times: seq<int>)
    requires times != [] && |times| <= |order| && used <= rows.Keys && order[0] !in used && Distinct(order)
    requires forall x :: x in order ==> x in rows && x !in used
    requires forall u :: u in used ==> Waits(rows, order[0], rows[u].lastUsed, u)
    ensures var next := Touch(rows, Some(order[0]), times[0]);
            && (forall x :: x in order[1..] ==> x in next)
            && (InTime(next, used + {order[0]}, order[1..], times[1..]) <==> InTime(rows, used, order, times))
  {
    var x, rest, later := order[0], order[1..], times[1..];
    var next, all := Touch(rows, Some(x), times[0]), used + {x};
    assert forall i :: 0 <= i < |rest| ==> rest[i] == order[i + 1] && next[rest[i]] == rows[rest[i]];
    assert forall i :: 0 <= i < |later| ==> later[i] == times[i + 1];
    if InTime(next, all, rest, later) {
      forall i, u | 0 <= i < |times| && u in used
        ensures Waits(rows, order[i], rows[u].lastUsed, u)
      {
        if i > 0 { assert Waits(next, rest[i - 1], next[u].lastUsed, u); }
      }
      forall i, j | 0 <= j < i < |times|
        ensures Waits(rows, order[i], times[j], order[j])
      {
        if j > 0 {
          assert Waits(next, rest[i - 1], later[j - 1], rest[j - 1]);
        } else {
          assert Waits(next, rest[i - 1], next[x].lastUsed, x);
        }
      }
    }
    if InTime(rows, used, order, times) {
      forall i, u | 0 <= i < |later| && u in all
        ensures Waits(next, rest[i], next[u].lastUsed, u)
      {
        assert Waits(rows, order[i + 1], times[0], x);
      }
    }
  }

  lemma QueueIsDistinct(rows: Rows, ids: set<int>, order: seq<int>)
    requires Queue(rows, ids, order)
    ensures Distinct(order)
  {
    forall i, j | 0 <= i < j < |order|
      ensures order[i] != order[j]
    {
      assert Waits(rows, order[i], rows[order[j]].lastUsed, order[j]);
    }
  }

  lemma QueueStep(rows: Rows, used: set<int>, order: seq<int>, t: int)
    requires order != [] && Queue(rows, (set id | id in rows && rows[id].enabled) - used, order)
    ensures var next := Touch(rows, Some(order[0]), t);
            Queue(next, (set id | id in next && next[id].enabled) - (used + {order[0]}), order[1..])
  {
    QueueIsDistinct(rows, (set id | id in rows && rows[id].enabled) - used, order);
    var next, rest := Touch(rows, Some(order[0]), t), order[1..];
    assert forall i :: 0 <= i < |rest| ==> rest[i] == order[i + 1];
    forall x
      ensures x in rest <==> x in (set id | id in next && next[id].enabled) - (used + {order[0]})
    {
      if x in order && x != order[0] {
        var i :| 0 <= i < |order| && order[i] == x;
        assert rest[i - 1] == x;
      }
    }
  }

  lemma DistinctFrom(picks: seq<int>, used: set<int>)
    requires picks != [] && picks[0] !in used
    ensures (Distinct(picks) && forall x :: x in picks ==> x !in used)
       <==> (Distinct(picks[1..]) && forall x :: x in picks[1..] ==> x !in used + {picks[0]})
  {
    var rest := picks[1..];
    if Distinct(rest) && forall x :: x in rest ==> x !in used + {picks[0]} {
      forall i, j | 0 <= i < j < |picks|
        ensures picks[i] != picks[j]
      {
        assert picks[j] == rest[j - 1] && rest[j - 1] in rest;
        if i > 0 { assert picks[i] == rest[i - 1]; }
      }
    }
    if Distinct(picks) {
      forall x | x in rest
        ensures x != picks[0]
      {
        var j :| 0 <= j < |rest| && rest[j] == x;
        assert picks[j + 1] == x;
      }
    }
  }

  lemma {:induction false} PicksFromQueue(rows: Rows, used: set<int>, order: seq<int>, times: seq<int>, picks: seq<int>)
    requires EquallyHealthy(rows) && PickRun(rows, times, picks) && |times| <= |order|
    requires used <= (set id | id in rows && rows[id].enabled)
    requires Queue(rows, (set id | id in rows && rows[id].enabled) - used, order)
    ensures Distinct(picks) && (forall x :: x in picks ==> x !in used) <==> InTime(rows, used, order, times)
    decreases |times|
  {
    hide Waits, IsPick, EquallyHealthy;
    if times != [] {
      var x := picks[0];
      if x in used {
        PickOfUsed(rows, used, order, times, x);
      } else {
        FirstInQueue(rows, used, order, x);
        var next := Touch(rows, Some(x), times[0]);
        TouchKeepsHealth(rows, x, times[0]);
        QueueStep(rows, used, order, times[0]);
        PicksFromQueue(next, used + {x}, order[1..], times[1..], picks[1..]);
        QueueIsDistinct(rows, (set id | id in rows && rows[id].enabled) - used, order);
        FirstBeforeUsed(rows, used, x);
        InTimeStep(rows, used, order, times);
        DistinctFrom(picks, used);
      }
    }
  }

  lemma FirstBeforeUsed(rows: Rows, used: set<int>, x: int)
    requires EquallyHealthy(rows) && IsPick(rows, {}, Some(x)) && x !in used
    requires used <= (set id | id in rows && rows[id].enabled)
    ensures forall u :: u in used ==> Waits(rows, x, rows[u].lastUsed, u)
  {
    forall u | u in used
      ensures Waits(rows, x, rows[u].lastUsed, u)
    {
      assert Eligible(rows, {}, u) && Before(rows, x, u);
    }
  }

  /** Exactly when picks over equally healthy accounts are all different: each account in the order
      of least recent use must be before every earlier one at the time it was picked. */
  lemma PicksAreDistinctIff(rows: Rows, order: seq<int>, times: seq<int>, picks: seq<int>)
    requires EquallyHealthy(rows) && PickRun(rows, times, picks)
    requires Queue(rows, (set id | id in rows && rows[id].enabled), order) && |times| <= |order|
    ensures Distinct(picks) <==> forall i, j :: 0 <= j < i < |times| ==> Waits(rows, order[i], times[j], order[j])
  {
    hide PickRun, EquallyHealthy, Waits;
    var enabled := set id | id in rows && rows[id].enabled;
    assert enabled - {} == enabled;
    PicksFromQueue(rows, {}, order, times, picks);
  }

  /** Two picks differ if and only if some other account was less recently used than the first pick
      is at its own time. */
  lemma TwoPicksDifferIff(rows: Rows, t0: int, t1: int, x: int, y: int)
    requires EquallyHealthy(rows) && PickRun(rows, [t0, t1], [x, y])
    ensures x != y <==> exists z :: z != x && Eligible(rows, {}, z) && Waits(rows, z, t0, x)
  {
    var next := Touch(rows, Some(x), t0);
    assert [t0, t1][1..] == [t1] && [x, y][1..] == [y] && [t1][0] == t1 && [y][0] == y;
    assert PickRun(next, [t1], [y]) && IsPick(next, {}, Some(y));
    if x != y {
      assert Eligible(next, {}, x) && Before(next, y, x);
      assert Eligible(rows, {}, y);
    }
    if z :| z != x && Eligible(rows, {}, z) && Waits(rows, z, t0, x) {
      assert Eligible(next, {}, z) && Before(next, y, z);
    }
  }

  /** Within one second of the clock the same account can be picked twice in a row. */
  lemma SameSecondRepeats(now: int)
    ensures var a := Account("c", true, now, 0, 0, 0);
            PickRun(map[1 := a, 2 := a], [now, now], [1, 1])
  {
    var a := Account("c", true, now, 0, 0, 0);
    var rows := map[1 := a, 2 := a];
    assert IsPick(rows, {}, Some(1));
    assert Touch(rows, Some(1), now) == rows;
    assert [now, now][1..] == [now] && [1, 1][1..] == [1];
    assert [now][1..] == [] && [1][1..] == [];
    assert PickRun(rows, [], []);
    assert PickRun(rows, [now], [1]);
  }

  // ---------- The pool in the service ----------

  class AccountStore {
    var rows: Rows

    constructor (rows: Rows)
      ensures this.rows == rows
    {
      this.rows := rows;
    }

    /** Takes the first row in the order of the query that is not to be skipped. What is returned
        is the row as it was read, before its time of use is written. */
    method PickExcept(skip: set<int>, now: int) returns (picked: Option<int>, a: Option<Account>)
      modifies this
      ensures IsPick(old(rows), skip, picked)
      ensures rows == Apply(old(rows), Pick(skip, now, picked))
      ensures a == if picked.Some? then Some(old(rows)[picked.value]) else None
    {
      picked, a := None, None;
      var left := rows.Keys;
      while left != {}
        invariant left <= rows.Keys && rows == old(rows)
        invariant picked.Some? ==> Eligible(rows, skip, picked.value)
        invariant forall id :: Eligible(rows, skip, id) && id !in left ==>
                    picked.Some? && Before(rows, picked.value, id)
        decreases left
      {
        ghost var some := SomeElement(left);
        var id :| id in left;
        left := left - {id};
        if Eligible(rows, skip, id) && (picked.None? || Before(rows, id, picked.value)) {
          picked := Some(id);
        }
      }
      if picked.Some? {
        a := Some(rows[picked.value]);
        rows := rows[picked.value := rows[picked.value].(lastUsed := now)];
      }
    }

    method MarkByStatus(id: int, status: int, now: int)
      modifies this
      ensures rows == Apply(old(rows), Mark(id, status, now))
    {
      if status == 200 {
        MarkResult(id, true, now);
      } else if status == 401 || status == 403 {
        MarkResult(id, false, now);
      }
    }

    method MarkResult(id: int, ok: bool, now: int)
      modifies this
      ensures rows == Apply(old(rows), Mark(id, if ok then 200 else 401, now))
    {
      if id <= 0 || id !in rows {
        return;
      }
      if ok {
        rows := rows[id := rows[id].(lastOk := now, failCount := 0)];
        return;
      }
      rows := rows[id := rows[id].(failCount := rows[id].failCount + 1)];
      if rows[id].enabled && rows[id].failCount >= MAX_AUTH_FAILURES {
        rows := rows[id := rows[id].(enabled := false)];
      }
    }

    method BindProxy(id: int, proxyId: int)
      modifies this
      ensures rows == Apply(old(rows), Bind(id, proxyId))
    {
      if id > 0 && id in rows {
        rows := rows[id := rows[id].(proxyId := proxyId)];
      }
    }

    /** `readOk` says whether the row could be read for the comparison of identities. */
    method UpdateAccountCookie(id: int, cookie: string, readOk: bool)
      modifies this
      ensures rows == Apply(old(rows), UpdateCookie(id, cookie, readOk))
    {
      hide CookieIdentity;
      if id <= 0 || cookie == "" || id !in rows {
        return;
      }
      if readOk {
        var got := CookieIdentityOf(cookie);
        var want := CookieIdentityOf(rows[id].cookie);
        if got != want {
          return;
        }
      }
      rows := rows[id := rows[id].(cookie := cookie)];
    }
  }
}
