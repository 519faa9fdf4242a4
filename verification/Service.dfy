/** One request from the choice of an account to the release of its slot. */
module Service {
  import opened Bytes
  import opened Text
  import opened Slots
  import opened Limiters
  import opened Proxies
  import opened Egress
  import opened Accounts
  import CookieMerge
  import Login
  import Retry
  import opened RetryLoops

  datatype Result =
    | NoSlot(reason: Verdict, slot: int)
    | NoAccount
    | Rejected(error: string, accountId: int)   // uploads, the prompt attachment, or the prompt limit failed
    | Tried(outcome: RetryLoops.Outcome, accountId: int, cookie: string, emitted: bytes, log: Retry.Log)

  /** proxyUsableByID */
  function UsableById(cache: seq<Proxy>, now: int, cooldownMin: int): int -> bool {
    id => id > 0 && var p := FindId(cache, id); p.Some? && Usable(p.value, now, cooldownMin)
  }

  /** What the rest of the world does to one request. */
  datatype World = World(now: int, trials: nat -> Login.Trial, upstream: Retry.Upstream, rejected: Option<string>)

  datatype Options = Options(retries: int, fallbackAnon: bool, wantText: bool, wantThought: bool)

  function VoicesOf(options: Options, clean: bytes -> bytes): Retry.Voices {
    Retry.Voices(options.wantText, options.wantThought, clean)
  }

  /** Nothing is in flight that was not before. */
  ghost predicate SameInflight(before: map<int, Slot>, after: map<int, Slot>) {
    forall id :: SlotOf(after, id).inflight == SlotOf(before, id).inflight
  }

  lemma ReleaseUndoesGrant(before: map<int, Slot>, during: map<int, Slot>, held: int, now: int)
    requires Differ(before, during, Some(held), now)
    ensures SameInflight(before, during[held := Release(SlotOf(during, held))])
  {
    hide Differ;
    forall id
      ensures SlotOf(during[held := Release(SlotOf(during, held))], id).inflight == SlotOf(before, id).inflight
    {
      InflightChanges(before, during, Some(held), now, id);
    }
  }

  lemma RefusalChangesNothing(before: map<int, Slot>, after: map<int, Slot>, now: int)
    requires Differ(before, after, None, now)
    ensures SameInflight(before, after)
  {
    hide Differ;
    forall id
      ensures SlotOf(after, id).inflight == SlotOf(before, id).inflight
    {
      InflightChanges(before, after, None, now, id);
    }
  }

  // ---------- The account steps of a whole request ----------

  lemma {:induction false} RunConcat(rows: Rows, a: seq<AccountStep>, b: seq<AccountStep>)
    ensures Accounts.Run(rows, a + b) == Accounts.Run(Accounts.Run(rows, a), b)
    decreases |a|
  {
    hide Accounts.Apply;
    if a == [] {
      assert a + b == b;
    } else {
      assert (a + b)[1..] == a[1..] + b;
      RunConcat(Accounts.Apply(rows, a[0]), a[1..], b);
    }
  }

  lemma {:induction false} StatusesConcat(a: seq<AccountStep>, b: seq<AccountStep>, id: int)
    ensures StatusesOf(a + b, id) == StatusesOf(a, id) + StatusesOf(b, id)
  {
    if a == [] {
      assert a + b == b;
    } else {
      assert (a + b)[1..] == a[1..] + b;
      StatusesConcat(a[1..], b, id);
    }
  }

  /** A write of health or cookie to one account. */
  predicate OwnWrite(s: AccountStep, id: int) {
    (s.Mark? || s.UpdateCookie?) && s.id == id
  }

  lemma EventSteps(e: Retry.Event, cookieId: int, id: int)
    ensures var steps := Retry.AccountStepsOf(e, cookieId);
            && |StatusesOf(steps, id)| == (if id == cookieId && e.Marked? then 1 else 0)
            && (forall s :: s in steps ==> OwnWrite(s, cookieId))
  {
    var steps := Retry.AccountStepsOf(e, cookieId);
    if steps != [] { assert steps == [steps[0]] && steps[1..] == []; }
  }

  /** A conversation writes health and cookies of its own account only, and no binding. */
  lemma {:induction false} ConversationSteps(log: Retry.Log, cookieId: int, id: int)
    ensures var steps := Retry.AccountSteps(log, cookieId);
            && |StatusesOf(steps, id)| == (if id == cookieId then Retry.Count(log, Retry.IsMark) else 0)
            && (forall s :: s in steps ==> OwnWrite(s, cookieId))
  {
    hide StatusesOf, Retry.AccountStepsOf;
    if log == [] {
      NoSteps(id);
    } else {
      ConversationSteps(Retry.Init(log), cookieId, id);
      EventSteps(Retry.Final(log), cookieId, id);
      StatusesConcat(Retry.AccountSteps(Retry.Init(log), cookieId), Retry.AccountStepsOf(Retry.Final(log), cookieId),
                     id);
    }
  }

  lemma NoSteps(id: int)
    ensures StatusesOf([], id) == []
  {
  }

  lemma {:induction false} BindingsStay(rows: Rows, steps: seq<AccountStep>)
    requires forall s :: s in steps ==> !s.Bind?
    ensures var r := Accounts.Run(rows, steps);
            r.Keys == rows.Keys && forall id :: id in rows ==> r[id].proxyId == rows[id].proxyId
    decreases |steps|
  {
    hide CookieAfter, Marked;
    if steps != [] {
      assert steps[0] in steps;
      assert forall a: Account, st: int, at: int :: Marked(a, st, at).proxyId == a.proxyId by { MarkedKeepsBinding(); }
      BindingsStay(Accounts.Apply(rows, steps[0]), steps[1..]);
    }
  }

  /** Without an account nothing is written. */
  lemma {:induction false} WritesNothing(rows: Rows, steps: seq<AccountStep>, id: int)
    requires id <= 0 && forall s :: s in steps ==> OwnWrite(s, id)
    ensures Accounts.Run(rows, steps) == rows
    decreases |steps|
  {
    if steps != [] {
      assert steps[0] in steps;
      WritesNothing(rows, steps[1..], id);
    }
  }

  /** Writes to an account are no picks. */
  lemma {:induction false} WritesArePicksOfNothing(before: Rows, steps: seq<AccountStep>, more: seq<AccountStep>,
                                                   id: int)
    requires Login.AllLegal(before, steps) && Login.InTurn(steps) && forall s :: s in more ==> OwnWrite(s, id)
    ensures Login.AllLegal(before, steps + more) && Login.InTurn(steps + more)
    ensures Login.PicksOf(steps + more) == Login.PicksOf(steps)
    decreases |more|
  {
    hide Login.AllLegal, Login.InTurn, Login.PicksOf, Accounts.Run;
    if more == [] {
      assert steps + more == steps;
    } else {
      assert more[0] in more;
      Login.Extend(before, steps, more[0]);
      Login.NextInTurn(steps, more[0]);
      WritesArePicksOfNothing(before, steps + [more[0]], more[1..], id);
      assert steps + [more[0]] + more[1..] == steps + more;
    }
  }

  lemma {:induction false} StaysWellKept(rows: Rows, steps: seq<AccountStep>)
    requires Login.WellKept(rows)
    ensures Login.WellKept(Accounts.Run(rows, steps))
    decreases |steps|
  {
    hide Marked, CookieMerge.CookieIdentity;
    if steps != [] {
      assert forall a: Account, st: int, at: int :: Marked(a, st, at).cookie == a.cookie by { MarkedKeepsCookie(); }
      StaysWellKept(Accounts.Apply(rows, steps[0]), steps[1..]);
    }
  }

  lemma MarkedKeepsCookie()
    ensures forall a: Account, st: int, at: int :: Marked(a, st, at).cookie == a.cookie
  {
  }

  lemma MarkedKeepsBinding()
    ensures forall a: Account, st: int, at: int :: Marked(a, st, at).proxyId == a.proxyId
  {
  }

  /** What one request under `account` does to the account rows. */
  ghost predicate OneRequest(before: Rows, after: Rows, steps: seq<AccountStep>, usable: int -> bool, picked: int,
                             account: int) {
    && after == Accounts.Run(before, steps)
    && (forall id :: |StatusesOf(steps, id)| <= 1)
    && Login.BindingsAre(before, after, usable, picked, account)
    && (Login.WellKept(before) ==> Login.WellKept(after))
  }

  lemma LoginThenConversation(before: Rows, mid: Rows, after: Rows, login: seq<AccountStep>, failed: set<int>,
                              log: Retry.Log, cookieId: int, usable: int -> bool, picked: int)
    requires mid == Accounts.Run(before, login) && Login.MarkedOnce(login, failed) && cookieId !in failed
    requires Login.BindingsAre(before, mid, usable, picked, cookieId)
    requires after == Accounts.Run(mid, Retry.AccountSteps(log, cookieId)) && Retry.Count(log, Retry.IsMark) <= 1
    ensures OneRequest(before, after, login + Retry.AccountSteps(log, cookieId), usable, picked, cookieId)
    ensures cookieId <= 0 ==> after == mid
  {
    hide Accounts.Run, StatusesOf, Retry.AccountSteps, Retry.Count;
    var more := Retry.AccountSteps(log, cookieId);
    RunConcat(before, login, more);
    if Login.WellKept(before) { StaysWellKept(before, login + more); }
    ConversationSteps(log, cookieId, cookieId);
    BindingsStay(mid, more);
    if cookieId <= 0 { WritesNothing(mid, more, cookieId); }
    forall id
      ensures |StatusesOf(login + more, id)| <= 1
    {
      StatusesConcat(login, more, id);
      ConversationSteps(log, cookieId, id);
    }
  }

  lemma LoginOnly(before: Rows, after: Rows, login: seq<AccountStep>, failed: set<int>, usable: int -> bool,
                  picked: int, account: int)
    requires after == Accounts.Run(before, login) && Login.MarkedOnce(login, failed)
    requires Login.BindingsAre(before, after, usable, picked, account)
    ensures OneRequest(before, after, login, usable, picked, account)
  {
    hide Accounts.Run, Login.BindingsAre, Login.MarkedOnce;
    assert forall id :: |StatusesOf(login, id)| <= 1 by { MarkedAtMostOnce(login, failed); }
    if Login.WellKept(before) { StaysWellKept(before, login); }
  }

  lemma MarkedAtMostOnce(login: seq<AccountStep>, failed: set<int>)
    requires Login.MarkedOnce(login, failed)
    ensures forall id :: |StatusesOf(login, id)| <= 1
  {
  }

  lemma FirstPick(rows: Rows, now: int, id: Option<int>, trials: nat -> Login.Trial, usable: int -> bool, picked: int)
    requires IsPick(rows, {}, id) && Login.WellKept(rows)
    ensures var steps, after := [Pick({}, now, id)], Accounts.Apply(rows, Pick({}, now, id));
            && after == Accounts.Run(rows, steps) && Login.AllLegal(rows, steps) && Login.MarkedOnce(steps, {})
            && Login.LoginDid(rows, after, [], trials, 0, Login.PicksOf(steps), usable, picked, now)
            && Login.BindingsAre(rows, after, usable, picked, 0) && Login.WellKept(after)
            && Login.InTurn(steps) && Login.PicksOf(steps) == if id.Some? then [id.value] else []
  {
    var steps := [Pick({}, now, id)];
    assert steps[1..] == [] && steps[..0] == [];
  }

  /** How a request that has a slot can end, when `tried` are the accounts that were tried for it:
      under the first of at most three that can be used; or, when none could be, not at all, or
      anonymously if there were no accounts or the option says so. */
  ghost predicate Answered(options: Options, world: World, rows: Rows, first: Option<int>, tried: seq<int>, r: Result) {
    && !r.NoSlot?
    && Login.Chosen(rows, world.trials, first, tried, if r.NoAccount? then 0 else r.accountId)
    && (r.Rejected? ==> world.rejected == Some(r.error))
    && (r.Tried? ==> world.rejected.None? && (r.accountId > 0 <==> r.cookie != ""))
    && (if r.NoAccount? then tried != [] && !options.fallbackAnon
        else r.accountId > 0 || tried == [] || options.fallbackAnon)
  }

  /** The account that a request runs under, or 0. */
  function AccountOf(r: Result): int {
    if r.Rejected? || r.Tried? then r.accountId else 0
  }

  /** What a request writes after its login. */
  function Talk(r: Result): seq<AccountStep> {
    if r.Tried? then Retry.AccountSteps(r.log, r.accountId) else []
  }

  /** The accounts that were tried are those that the steps picked, each in its turn; a last pick may
      have been made in vain. Each row is what its trial made of it, and then the retry loop writes. */
  ghost predicate TriedInTurn(before: Rows, steps: seq<AccountStep>, tried: seq<int>, world: World,
                              usable: int -> bool, picked: int, r: Result) {
    && Login.AllLegal(before, steps) && Login.InTurn(steps) && tried <= Login.PicksOf(steps)
    && exists login :: LoginThen(before, login, steps, tried, world, usable, picked, r)
  }

  /** The cookie is that of the row of the account, or nothing without an account. */
  ghost predicate HasCookie(rows: Rows, id: int, cookie: string) {
    if id > 0 then id in rows && rows[id].cookie == cookie else cookie == ""
  }

  ghost predicate LoginThen(before: Rows, login: seq<AccountStep>, steps: seq<AccountStep>, tried: seq<int>,
                            world: World, usable: int -> bool, picked: int, r: Result) {
    && steps == login + Talk(r)
    && (r.Tried? ==> HasCookie(Accounts.Run(before, login), r.accountId, r.cookie))
    && Login.LoginDid(before, Accounts.Run(before, login), tried, world.trials, |tried|, Login.PicksOf(login), usable,
                      picked, world.now)
  }

  lemma TriedThen(before: Rows, mid: Rows, login: seq<AccountStep>, tried: seq<int>, world: World, usable: int -> bool,
                  picked: int, r: Result)
    requires Login.AllLegal(before, login) && Login.InTurn(login) && tried <= Login.PicksOf(login)
    requires mid == Accounts.Run(before, login) && (r.Tried? ==> HasCookie(mid, r.accountId, r.cookie))
    requires Login.LoginDid(before, mid, tried, world.trials, |tried|, Login.PicksOf(login), usable, picked, world.now)
    ensures TriedInTurn(before, login + Talk(r), tried, world, usable, picked, r)
    ensures !r.Tried? ==> login + Talk(r) == login
  {
    hide Accounts.Run, Login.AllLegal, Login.InTurn, Login.PicksOf, Login.LoginDid, Retry.AccountSteps;
    var account := if r.Tried? then r.accountId else 0;
    if r.Tried? { ConversationSteps(r.log, account, account); }
    WritesArePicksOfNothing(before, login, Talk(r), account);
    assert LoginThen(before, login, login + Talk(r), tried, world, usable, picked, r);
  }

  lemma OneMark(log: Retry.Log, retries: int, up: Retry.Upstream, cookied: bool, outcome: RetryLoops.Outcome)
    requires SoundLog(log, retries, up, cookied, outcome)
    ensures Retry.Count(log, Retry.IsMark) <= 1
  {
  }

  /** What the proxies are after a request: the results of its attempts, if it used one of them. */
  ghost function PoolAfter(pool: Pool, r: Result, held: int): Pool {
    if r.Tried? && held > 0 then Proxies.Run(pool, Retry.ProxySteps(r.log, held)) else pool
  }

  /** The results that reach the pool are those of the replies, in order, but for a healed one. */
  lemma PoolHearsOfReplies(pool: Pool, r: Result, held: int, retries: int, up: Retry.Upstream)
    requires r.Tried? && held > 0 && SoundLog(r.log, retries, up, r.accountId > 0, r.outcome)
    ensures PoolAfter(pool, r, held)
         == Proxies.Run(pool, ResultsOf(up, Retry.Count(r.log, Retry.IsSent), r.accountId > 0, held))
  {
    hide Proxies.Run, Retry.ProxySteps, ResultsOf, Truthful;
    ResultsAreOfReplies(r.log, up, r.accountId > 0, held);
  }

  /** The picked account's proxy is preferred; without a slot the request is refused for the reason
      of the limiter, and otherwise answered through the slot it holds. */
  ghost predicate Routed(rows: Rows, cache: seq<Proxy>, view: map<int, Slot>, limits: Limits, cooldownMin: int,
                         direct: bool, start: nat, next: nat, options: Options, world: World, first: Option<int>,
                         slot: Egress.Outcome, after: Rows, tried: seq<int>, r: Result, held: int) {
    && IsPick(rows, {}, first)
    && Acquired(cache, view, limits, cooldownMin, direct, start, next,
                if first.Some? then rows[first.value].proxyId else 0, world.now, slot)
    && (if slot.Refused? then r == NoSlot(slot.reason, slot.slot) && held == 0
        else Answered(options, world, after, first, tried, r) && held == (if slot.Via? then slot.proxy.id else 0))
  }

  lemma StartsReady(rows: Rows, now: int, id: Option<int>, acct: Option<Account>)
    requires IsPick(rows, {}, id) && acct == if id.Some? then Some(rows[id.value]) else None
    ensures var after := Accounts.Apply(rows, Pick({}, now, id));
            id.Some? ==> id.value in after && after[id.value] == acct.value.(lastUsed := now)
  {
  }

  /** A request that got no slot has only picked an account. */
  lemma OnlyPicked(rows: Rows, world: World, id: Option<int>, usable: int -> bool, r: Result)
    requires IsPick(rows, {}, id) && Login.WellKept(rows) && r.NoSlot?
    ensures var steps, after := [Pick({}, world.now, id)], Accounts.Apply(rows, Pick({}, world.now, id));
            OneRequest(rows, after, steps, usable, 0, 0) && TriedInTurn(rows, steps, [], world, usable, 0, r)
  {
    hide Accounts.Run, Accounts.Apply, IsPick, Login.LoginDid, Login.AllLegal, Login.InTurn, Login.PicksOf;
    var steps := [Pick({}, world.now, id)];
    FirstPick(rows, world.now, id, world.trials, usable, 0);
    LoginOnly(rows, Accounts.Apply(rows, steps[0]), steps, {}, usable, 0, 0);
    TriedThen(rows, Accounts.Apply(rows, steps[0]), steps, [], world, usable, 0, r);
  }

  lemma KeptByRequest(before: Rows, after: Rows, steps: seq<AccountStep>, picked: int, cache: seq<Proxy>, now: int,
                      cooldownMin: int, account: int)
    requires OneRequest(before, after, steps, UsableById(cache, now, cooldownMin), picked, account)
    requires Login.WellKept(before)
    ensures Login.WellKept(after)
  {
  }

  class Gateway {
    const scheduler: Scheduler
    const accounts: AccountStore

    constructor (scheduler: Scheduler, accounts: AccountStore)
      ensures this.scheduler == scheduler && this.accounts == accounts
    {
      this.scheduler, this.accounts := scheduler, accounts;
    }

    /** Chooses an account, gets a slot, logs in, and runs the retry loop. Whatever happens, the slot
        is given back, no account has more than one health write, the account that is used is bound and
        no other, and the proxy has the result of every attempt. */
    method Generate(options: Options, world: World, clean: bytes -> bytes)
        returns (r: Result, steps: seq<AccountStep>, held: int)
      requires scheduler.limiter.Valid() && Login.WellKept(accounts.rows)
      modifies scheduler`cursor, scheduler.limiter, scheduler.limiter.slots.Values, scheduler.store, accounts
      ensures scheduler.limiter.Valid()
      ensures SameInflight(old(scheduler.limiter.View()), scheduler.limiter.View())
      ensures OneRequest(old(accounts.rows), accounts.rows, steps,
                         old(UsableById(scheduler.store.cache, world.now, scheduler.cooldownMin)), held, AccountOf(r))
      ensures Login.WellKept(accounts.rows)
      ensures scheduler.store.State() == PoolAfter(old(scheduler.store.State()), r, held)
      ensures exists first, slot, tried ::
                TriedInTurn(old(accounts.rows), steps, tried, world,
                            old(UsableById(scheduler.store.cache, world.now, scheduler.cooldownMin)), held, r) &&
                Routed(old(accounts.rows), old(scheduler.store.cache), old(scheduler.limiter.View()),
                       scheduler.limiter.limits, scheduler.cooldownMin, scheduler.fallbackDirect,
                       old(scheduler.cursor), scheduler.cursor,
                       options, world, first, slot, accounts.rows, tried, r, held)
      ensures r.Tried? ==>
                && r.emitted == Retry.TextOf(r.log)
                && SoundLog(r.log, options.retries, world.upstream, r.accountId > 0, r.outcome)
                && Repeats(r.log, world.upstream, r.accountId > 0, VoicesOf(options, clean), r.cookie)
    {
      hide SoundLog, Repeats, Differ, Acquired, SameInflight, Accounts.Run, IsPick, OneRequest, Accounts.Apply, Usable,
           FindId, Try, Release, Answered, TriedInTurn, Login.WellKept, UsableById, Retry.TextOf, SlotOf,
           Retry.ProxySteps, Proxies.Run;
      ghost var tried: seq<int> := [];
      ghost var rows0, view0 := accounts.rows, scheduler.limiter.View();
      ghost var cache0, start := scheduler.store.cache, scheduler.cursor;
      var id, acct := accounts.PickExcept({}, world.now);
      steps := [Pick({}, world.now, id)];
      var prefer := if acct.Some? then acct.value.proxyId else 0;
      var slot := scheduler.AcquireSlot(prefer, world.now);
      if slot.Refused? {
        RefusalChangesNothing(view0, scheduler.limiter.View(), world.now);
        r, held := NoSlot(slot.reason, slot.slot), 0;
        OnlyPicked(rows0, world, id, UsableById(cache0, world.now, scheduler.cooldownMin), r);
      } else {
        held := if slot.Via? then slot.proxy.id else 0;
        r, steps, tried := ServeAndRelease(options, world, clean, id, acct, held, rows0, view0);
      }
      assert Routed(rows0, cache0, view0, scheduler.limiter.limits, scheduler.cooldownMin, scheduler.fallbackDirect,
                    start, scheduler.cursor, options, world, id, slot, accounts.rows, tried, r, held);
      KeptByRequest(rows0, accounts.rows, steps, held, cache0, world.now, scheduler.cooldownMin, AccountOf(r));
    }

    /** Serves the request and gives back its slot, in whatever way the request ends. */
    method ServeAndRelease(options: Options, world: World, clean: bytes -> bytes, id: Option<int>,
                           acct: Option<Account>, held: int, ghost rows0: Rows, ghost view0: map<int, Slot>)
      returns (r: Result, steps: seq<AccountStep>, ghost tried: seq<int>)
      requires Login.WellKept(rows0)
      requires IsPick(rows0, {}, id) && accounts.rows == Accounts.Apply(rows0, Pick({}, world.now, id))
      requires acct == if id.Some? then Some(rows0[id.value]) else None
      requires scheduler.limiter.Valid() && Differ(view0, scheduler.limiter.View(), Some(held), world.now)
      modifies scheduler.limiter, scheduler.limiter.slots.Values, scheduler.store, accounts
      ensures scheduler.limiter.Valid() && SameInflight(view0, scheduler.limiter.View())
      ensures OneRequest(rows0, accounts.rows, steps,
                         old(UsableById(scheduler.store.cache, world.now, scheduler.cooldownMin)), held, AccountOf(r))
      ensures Answered(options, world, accounts.rows, id, tried, r)
      ensures TriedInTurn(rows0, steps, tried, world,
                          old(UsableById(scheduler.store.cache, world.now, scheduler.cooldownMin)), held, r)
      ensures scheduler.store.State() == PoolAfter(old(scheduler.store.State()), r, held)
      ensures r.Tried? ==>
                && r.emitted == Retry.TextOf(r.log)
                && SoundLog(r.log, options.retries, world.upstream, r.accountId > 0, r.outcome)
                && Repeats(r.log, world.upstream, r.accountId > 0, VoicesOf(options, clean), r.cookie)
    {
      hide SoundLog, Repeats, Differ, SameInflight, Accounts.Run, IsPick, OneRequest, Accounts.Apply, Usable, FindId,
           Try, Release, Answered, TriedInTurn, Login.WellKept, UsableById, Retry.TextOf, Retry.ProxySteps, Proxies.Run;
      ghost var view := scheduler.limiter.View();
      r, steps, tried := Serve(options, world, clean, id, acct, held, rows0);
      ReleaseUndoesGrant(view0, view, held, world.now);
      scheduler.limiter.SlotRelease(held);
    }

    /** Everything that happens while the slot is held. */
    method Serve(options: Options, world: World, clean: bytes -> bytes, id: Option<int>, acct: Option<Account>,
                 held: int, ghost rows0: Rows) returns (r: Result, steps: seq<AccountStep>, ghost tried: seq<int>)
      requires Login.WellKept(rows0)
      requires IsPick(rows0, {}, id) && accounts.rows == Accounts.Apply(rows0, Pick({}, world.now, id))
      requires acct == if id.Some? then Some(rows0[id.value]) else None
      modifies scheduler.store, accounts
      ensures OneRequest(rows0, accounts.rows, steps,
                         old(UsableById(scheduler.store.cache, world.now, scheduler.cooldownMin)), held, AccountOf(r))
      ensures Answered(options, world, accounts.rows, id, tried, r)
      ensures TriedInTurn(rows0, steps, tried, world,
                          old(UsableById(scheduler.store.cache, world.now, scheduler.cooldownMin)), held, r)
      ensures scheduler.store.State() == PoolAfter(old(scheduler.store.State()), r, held)
      ensures r.Tried? ==>
                && r.emitted == Retry.TextOf(r.log)
                && SoundLog(r.log, options.retries, world.upstream, r.accountId > 0, r.outcome)
                && Repeats(r.log, world.upstream, r.accountId > 0, VoicesOf(options, clean), r.cookie)
    {
      hide SoundLog, Repeats, Accounts.Run, OneRequest, Usable, FindId, Login.AllLegal, Login.MarkedOnce,
           Login.LoginDid, Login.InTurn, Login.PicksOf, Login.Succeeds, Login.PickedInVain, Accounts.Apply,
           Login.Session.Ready, Login.BindingsAre, Login.WellKept, TriedInTurn, Proxies.Run, Retry.ProxySteps,
           Retry.TextOf, IsPick;
      var usable := UsableById(scheduler.store.cache, world.now, scheduler.cooldownMin);
      var session := StartLogin(usable, world, id, acct, held, rows0);
      var cookieId, cookie, error := session.AccountLoop(id, acct);
      steps, tried := session.steps, session.order;
      LoginOnly(rows0, accounts.rows, steps, session.failed, usable, held, if cookie != "" then cookieId else 0);
      if error && cookie == "" {
        if !options.fallbackAnon {
          r := NoAccount;
          TriedThen(rows0, accounts.rows, steps, tried, world, usable, held, r);
          return;
        }
        cookieId := 0;
      }
      // From here on a request runs under an account exactly if it has that account's cookie.
      if world.rejected.Some? {
        r := Rejected(world.rejected.value, cookieId);
        TriedThen(rows0, accounts.rows, steps, tried, world, usable, held, r);
        return;
      }
      r, steps := Converse(options, world, clean, held, cookieId, cookie, session, usable);
    }

    /** The account loop's variables before its first turn. */
    method StartLogin(usable: int -> bool, world: World, id: Option<int>, acct: Option<Account>, held: int,
                      ghost rows0: Rows)
      returns (session: Login.Session)
      requires Login.WellKept(rows0)
      requires IsPick(rows0, {}, id) && accounts.rows == Accounts.Apply(rows0, Pick({}, world.now, id))
      requires acct == if id.Some? then Some(rows0[id.value]) else None
      ensures fresh(session) && session.accounts == accounts && session.rows0 == rows0
      ensures session.picked == held && session.usable == usable && session.tried == {} && session.order == []
      ensures session.trials == world.trials && session.now == world.now
      ensures session.Ready(id, id, acct)
    {
      hide Accounts.Run, Usable, FindId, Login.AllLegal, Login.MarkedOnce, Login.LoginDid, Login.InTurn,
           Login.PicksOf, Accounts.Apply, IsPick;
      FirstPick(rows0, world.now, id, world.trials, usable, held);
      StartsReady(rows0, world.now, id, acct);
      session := new Login.Session(accounts, held, usable, world.now, world.trials, rows0, [Pick({}, world.now, id)]);
    }

    /** The retry loop after a login. */
    method Converse(options: Options, world: World, clean: bytes -> bytes, held: int, cookieId: int, cookie: string,
                    session: Login.Session, usable: int -> bool) returns (r: Result, steps: seq<AccountStep>)
      requires session.accounts == accounts && session.Valid() && session.picked == held && session.usable == usable
      requires cookieId !in session.failed && (cookieId > 0 <==> cookie != "")
      requires HasCookie(accounts.rows, cookieId, cookie)
      requires session.done == |session.order| && session.trials == world.trials && session.now == world.now
      requires Login.BindingsAre(session.rows0, accounts.rows, usable, held, cookieId)
      modifies scheduler.store, accounts
      ensures OneRequest(session.rows0, accounts.rows, steps, usable, held, cookieId)
      ensures TriedInTurn(session.rows0, steps, old(session.order), world, usable, held, r)
      ensures scheduler.store.State() == PoolAfter(old(scheduler.store.State()), r, held)
      ensures cookieId <= 0 ==> accounts.rows == old(accounts.rows)
      ensures r.Tried? && r.accountId == cookieId && r.cookie == cookie && r.emitted == Retry.TextOf(r.log)
      ensures SoundLog(r.log, options.retries, world.upstream, r.accountId > 0, r.outcome)
      ensures Repeats(r.log, world.upstream, r.accountId > 0, VoicesOf(options, clean), r.cookie)
    {
      hide Accounts.Run, Proxies.Run, OneRequest, SoundLog, Repeats, TriedInTurn, Retry.AccountSteps, Retry.ProxySteps,
           Login.AllLegal, Login.InTurn, Login.PicksOf, Login.MarkedOnce, Login.LoginDid, Login.BindingsAre,
           Login.WellKept, Retry.TextOf, Retry.ThoughtOf, RefreshedBy, Conversation.Heeded;
      ghost var mid := accounts.rows;
      var talk := new Conversation(cookieId, cookie, held, VoicesOf(options, clean), accounts, scheduler.store);
      var outcome := talk.RetryLoop(options.retries, world.upstream);
      OneMark(talk.log, options.retries, world.upstream, cookieId > 0, outcome);
      LoginThenConversation(session.rows0, mid, accounts.rows, session.steps, session.failed, talk.log, cookieId,
                            usable, held);
      r := Tried(outcome, cookieId, cookie, talk.tracker.emitted, talk.log);
      TriedThen(session.rows0, mid, session.steps, session.order, world, usable, held, r);
      steps := session.steps + Retry.AccountSteps(talk.log, cookieId);
    }
  }
}
