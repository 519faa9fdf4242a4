/** Choosing the account of one request: bad accounts are tried, rotated, marked, and passed over. */
module Login {
  import opened Text
  import opened CookieMerge
  import opened Accounts
  import Retry

  const MAX_TRIES := 3

  datatype Rotation = Rotation(pageSet: seq<string>, setCookie: seq<string>)

  /** What happens while one account is tried: whether a token is had at once, how the rotation
      ends, whether the row can be read again, and whether a token is had then. */
  datatype Trial = Trial(token: bool, rotation: Option<Rotation>, guardReads: bool, rowReads: bool, again: bool)

  /** The account can be used: a token is had at once, or after a rotation and reading the row again. */
  predicate Succeeds(t: Trial) {
    t.token || (t.rotation.Some? && t.rowReads && t.again)
  }

  /** A cookie after a rotation: the headers of the page first, then those of the rotation itself. */
  ghost predicate RotatedTo(before: string, rotation: Rotation, after: string) {
    exists mid, e1, e2 :: Merged(before, rotation.pageSet, e1, mid) && Merged(mid, rotation.setCookie, e2, after)
  }

  /** Account rows always have a positive id and a cookie. */
  ghost predicate WellKept(rows: Rows) {
    forall id :: id in rows ==> id > 0 && rows[id].cookie != ""
  }

  /** Each account that was tried in vain has one authentication failure more, and no other
      account has any. */
  ghost predicate MarkedOnce(steps: seq<AccountStep>, failed: set<int>) {
    forall id :: StatusesOf(steps, id) == if id in failed then [401] else []
  }

  /** The binding of an account that is used through `picked`: a binding that works stays. */
  function BoundTo(binding: int, usable: int -> bool, picked: int): int {
    if binding == 0 || !usable(binding) then picked else binding
  }

  /** The account that the request runs under is bound as it should be, and no other binding changes. */
  ghost predicate BindingsAre(before: Rows, after: Rows, usable: int -> bool, picked: int, account: int) {
    && after.Keys == before.Keys
    && forall id :: id in before ==>
         after[id].proxyId == if id == account && (before[id].proxyId == 0 || !usable(before[id].proxyId)) then picked
                              else before[id].proxyId
  }

  /** The cookie of a row that was tried: as it was, or that of a rotation as the guard lets it through. */
  ghost predicate TrialCookie(before: string, trial: Trial, after: string) {
    if trial.token || trial.rotation.None? then after == before
    else exists cookie :: RotatedTo(before, trial.rotation.value, cookie)
                          && after == CookieAfter(before, cookie, trial.guardReads)
  }

  /** All that one trial does to its row: the account is bound, or it is marked. */
  ghost predicate TriedOn(before: Account, after: Account, trial: Trial, usable: int -> bool, picked: int, now: int) {
    var a := before.(cookie := after.cookie);
    && TrialCookie(before.cookie, trial, after.cookie)
    && after == if Succeeds(trial) then a.(proxyId := BoundTo(a.proxyId, usable, picked)) else Marked(a, 401, now)
  }

  /** All that the choice of an account does to the rows, when the first `n` of `tried` were tried to
      the end: `picks` have their use stamped, and each trial has done its work on its own row. */
  ghost predicate LoginDid(before: Rows, after: Rows, tried: seq<int>, trials: nat -> Trial, n: nat, picks: seq<int>,
                           usable: int -> bool, picked: int, now: int) {
    && n <= |tried| && after.Keys == before.Keys
    && (forall i, j :: 0 <= i < j < |tried| ==> tried[i] != tried[j])
    && (forall id :: id in before && id !in tried ==>
          after[id] == if id in picks then before[id].(lastUsed := now) else before[id])
    && (forall i :: 0 <= i < n ==>
          && tried[i] in before
          && TriedOn(before[tried[i]].(lastUsed := now), after[tried[i]], trials(i), usable, picked, now))
  }

  /** A row that is being tried may change. */
  lemma OthersStay(before: Rows, mid: Rows, after: Rows, tried: seq<int>, trials: nat -> Trial, n: nat, picks: seq<int>,
                   usable: int -> bool, picked: int, now: int)
    requires LoginDid(before, mid, tried, trials, n, picks, usable, picked, now) && n + 1 == |tried|
    requires after.Keys == mid.Keys && forall id :: id in mid && id != tried[n] ==> after[id] == mid[id]
    ensures LoginDid(before, after, tried, trials, n, picks, usable, picked, now)
  {
    hide TriedOn;
  }

  lemma BeginTrial(before: Rows, rows: Rows, tried: seq<int>, trials: nat -> Trial, picks: seq<int>,
                   usable: int -> bool, picked: int, now: int, id: int)
    requires LoginDid(before, rows, tried, trials, |tried|, picks, usable, picked, now)
    requires id in rows && id in picks && id !in tried
    ensures LoginDid(before, rows, tried + [id], trials, |tried|, picks, usable, picked, now)
    ensures id in before && rows[id] == before[id].(lastUsed := now)
  {
    hide TriedOn;
  }

  lemma EndTrial(before: Rows, rows: Rows, tried: seq<int>, trials: nat -> Trial, n: nat, picks: seq<int>,
                 usable: int -> bool, picked: int, now: int)
    requires LoginDid(before, rows, tried, trials, n, picks, usable, picked, now) && n + 1 == |tried|
    requires tried[n] in before
    requires TriedOn(before[tried[n]].(lastUsed := now), rows[tried[n]], trials(n), usable, picked, now)
    ensures LoginDid(before, rows, tried, trials, n + 1, picks, usable, picked, now)
  {
    hide TriedOn;
  }

  lemma OnePickMore(before: Rows, rows: Rows, tried: seq<int>, trials: nat -> Trial, n: nat, picks: seq<int>,
                    usable: int -> bool, picked: int, now: int, id: Option<int>)
    requires LoginDid(before, rows, tried, trials, n, picks, usable, picked, now)
    requires id.Some? ==> id.value in rows && id.value !in tried
    ensures LoginDid(before, Touch(rows, id, now), tried, trials, n, picks + (if id.Some? then [id.value] else []),
                     usable, picked, now)
  {
    hide TriedOn;
    var more, after := picks + (if id.Some? then [id.value] else []), Touch(rows, id, now);
    forall k | k in before && k !in tried
      ensures after[k] == if k in more then before[k].(lastUsed := now) else before[k]
    {
      assert rows[k] == if k in picks then before[k].(lastUsed := now) else before[k];
      assert k in more <==> k in picks || id == Some(k);
    }
  }

  /** After the choice, the account of the last trial is bound if it succeeded, and no other is. */
  lemma LoginBinds(before: Rows, after: Rows, tried: seq<int>, trials: nat -> Trial, picks: seq<int>,
                   usable: int -> bool, picked: int, now: int, account: int)
    requires LoginDid(before, after, tried, trials, |tried|, picks, usable, picked, now)
    requires forall i :: 0 <= i < |tried| ==> (Succeeds(trials(i)) <==> tried[i] == account)
    requires account in tried || (account == 0 && forall id :: id in before ==> id > 0)
    ensures BindingsAre(before, after, usable, picked, account)
  {
    hide Succeeds, TrialCookie;
    forall id | id in before
      ensures after[id].proxyId == if id == account && (before[id].proxyId == 0 || !usable(before[id].proxyId))
                                   then picked else before[id].proxyId
    {
      if id in tried {
        var i :| 0 <= i < |tried| && tried[i] == id;
        assert TriedOn(before[tried[i]].(lastUsed := now), after[tried[i]], trials(i), usable, picked, now);
      }
    }
  }

  /** The accounts that were picked, in order. */
  function PicksOf(steps: seq<AccountStep>): seq<int> {
    if steps == [] then []
    else
      var last := steps[|steps| - 1];
      PicksOf(steps[..|steps| - 1]) + PickedBy(last)
  }

  function PickedBy(step: AccountStep): seq<int> {
    if step.Pick? && step.picked.Some? then [step.picked.value] else []
  }

  function SetOf(s: seq<int>): set<int> {
    set x | x in s
  }

  /** Every pick passes over the accounts that were picked before. */
  ghost predicate InTurn(steps: seq<AccountStep>) {
    forall i :: 0 <= i < |steps| && steps[i].Pick? ==> steps[i].skip == SetOf(PicksOf(steps[..i]))
  }

  lemma NextInTurn(steps: seq<AccountStep>, step: AccountStep)
    requires InTurn(steps) && (step.Pick? ==> step.skip == SetOf(PicksOf(steps)))
    ensures InTurn(steps + [step])
    ensures PicksOf(steps + [step]) == PicksOf(steps) + PickedBy(step)
    ensures !step.Pick? ==> PicksOf(steps + [step]) == PicksOf(steps)
  {
    hide PicksOf, SetOf;
    var all := steps + [step];
    assert all[..|steps|] == steps;
    assert PicksOf(all) == PicksOf(steps) + PickedBy(step) by {
      PicksSnoc(steps, step);
    }
    forall i | 0 <= i < |all| && all[i].Pick?
      ensures all[i].skip == SetOf(PicksOf(all[..i]))
    {
      if i < |steps| { assert all[..i] == steps[..i]; }
    }
  }

  lemma PicksSnoc(steps: seq<AccountStep>, step: AccountStep)
    ensures PicksOf(steps + [step]) == PicksOf(steps) + PickedBy(step)
  {
    assert (steps + [step])[..|steps|] == steps;
  }

  /** The account that trial `k` is the first to succeed for, if one of the first `n` does. */
  ghost predicate FirstSuccess(trials: nat -> Trial, k: nat) {
    Succeeds(trials(k)) && forall j :: 0 <= j < k ==> !Succeeds(trials(j))
  }

  /** How the choice of an account ends, when `tried` were tried in order and `rows` is what they
      left: with the last of them, at the first trial that succeeds; or with none, after three
      failures or when no other account is left. */
  ghost predicate Chosen(rows: Rows, trials: nat -> Trial, first: Option<int>, tried: seq<int>, account: int) {
    && |tried| <= 3 && (first.None? <==> tried == []) && (first.Some? ==> tried[0] == first.value)
    && (if account > 0 then tried != [] && account == tried[|tried| - 1] && FirstSuccess(trials, |tried| - 1)
        else
          && account == 0 && (forall i :: 0 <= i < |tried| ==> !Succeeds(trials(i)))
          && (0 < |tried| < 3 ==> forall id :: !Eligible(rows, SetOf(tried), id)))
  }

  /** After `tried` another account was picked and its use stamped, if there was one. */
  ghost predicate PickedInVain(rows: Rows, steps: seq<AccountStep>, tried: seq<int>, now: int) {
    || (PicksOf(steps) == tried && forall id :: !Eligible(rows, SetOf(tried), id))
    || (exists id :: PicksOf(steps) == tried + [id] && id !in tried && id in rows && rows[id].lastUsed == now)
  }

  ghost predicate AllLegal(rows: Rows, steps: seq<AccountStep>) {
    forall i :: 0 <= i < |steps| ==> Legal(Run(rows, steps[..i]), steps[i])
  }

  /** One more step, with everything that is said about a list of steps. */
  lemma Extend(rows: Rows, steps: seq<AccountStep>, step: AccountStep)
    requires AllLegal(rows, steps) && Legal(Run(rows, steps), step)
    ensures AllLegal(rows, steps + [step])
    ensures Run(rows, steps + [step]) == Apply(Run(rows, steps), step)
  {
    hide Run, Legal, Apply;
    var all := steps + [step];
    Retry.AccountRunSnoc(rows, steps, step);
    assert all[..|steps|] == steps;
    forall i | 0 <= i < |all|
      ensures Legal(Run(rows, all[..i]), all[i])
    {
      if i < |steps| { assert all[..i] == steps[..i]; }
    }
  }

  lemma {:induction false} StatusesSnoc(steps: seq<AccountStep>, step: AccountStep, id: int)
    ensures StatusesOf(steps + [step], id)
         == StatusesOf(steps, id) + if step.Mark? && step.id == id then [step.status] else []
  {
    if steps == [] {
      assert steps + [step] == [step] && [step][1..] == [];
    } else {
      assert (steps + [step])[1..] == steps[1..] + [step];
      StatusesSnoc(steps[1..], step, id);
    }
  }

  lemma OtherStepMarksNothing(steps: seq<AccountStep>, step: AccountStep, failed: set<int>)
    requires MarkedOnce(steps, failed) && !step.Mark?
    ensures MarkedOnce(steps + [step], failed)
  {
    hide StatusesOf;
    forall id
      ensures StatusesOf(steps + [step], id) == if id in failed then [401] else []
    {
      StatusesSnoc(steps, step, id);
    }
  }

  lemma MarkMarks(steps: seq<AccountStep>, failed: set<int>, id: int, now: int)
    requires MarkedOnce(steps, failed) && id !in failed
    ensures MarkedOnce(steps + [Mark(id, 401, now)], failed + {id})
  {
    hide StatusesOf;
    forall i
      ensures StatusesOf(steps + [Mark(id, 401, now)], i) == if i in failed + {id} then [401] else []
    {
      StatusesSnoc(steps, Mark(id, 401, now), i);
    }
  }

  class Session {
    const accounts: AccountStore
    const picked: int            // the proxy of this request, or 0
    const usable: int -> bool    // which proxies can be used now
    const now: int
    const trials: nat -> Trial   // what happens in each turn
    var steps: seq<AccountStep>  // what was done to the account rows
    var tried: set<int>
    var rotatedOnce: set<int>
    ghost var order: seq<int>    // the accounts tried, in order
    ghost var done: nat          // how many of them were tried to the end
    ghost var failed: set<int>
    ghost const rows0: Rows

    constructor (accounts: AccountStore, picked: int, usable: int -> bool, now: int, trials: nat -> Trial,
                 ghost rows0: Rows, steps: seq<AccountStep>)
      ensures this.accounts == accounts && this.picked == picked && this.usable == usable && this.now == now
      ensures this.rows0 == rows0 && this.steps == steps && tried == rotatedOnce == failed == {} && order == []
      ensures this.trials == trials && done == 0
    {
      this.accounts, this.picked, this.usable, this.now := accounts, picked, usable, now;
      this.trials, this.rows0, this.steps := trials, rows0, steps;
      tried, rotatedOnce, failed, order, done := {}, {}, {}, [], 0;
    }

    ghost predicate Valid()
      reads this, accounts
    {
      && accounts.rows == Run(rows0, steps)
      && AllLegal(rows0, steps)
      && MarkedOnce(steps, failed)
      && LoginDid(rows0, accounts.rows, order, trials, done, PicksOf(steps), usable, picked, now)
      && WellKept(accounts.rows)
      && failed <= tried && rotatedOnce <= tried && (forall id :: id in tried ==> id > 0)
      && |tried| <= MAX_TRIES
      && InTurn(steps) && tried == SetOf(order) && |order| == |tried| && order <= PicksOf(steps)
    }

    /** The last account of the order is being tried. */
    ghost predicate Trying(id: int, a: Account)
      reads this, accounts
    {
      && Valid() && done + 1 == |order| && order[done] == id && id in accounts.rows
      && accounts.rows[id].cookie == a.cookie && accounts.rows[id].proxyId == a.proxyId
    }

    /** rotateAccount: merges what the two replies refresh and writes the cookie back. */
    method RotateAccount(id: int, a: Account, rotation: Option<Rotation>, guardReads: bool) returns (ok: bool)
      requires Trying(id, a)
      modifies this`steps, accounts
      ensures Valid() && ok == rotation.Some? && PicksOf(steps) == PicksOf(old(steps))
      ensures rotation.None? ==> accounts.rows == old(accounts.rows)
      ensures rotation.Some? ==>
                exists cookie :: (
                  && RotatedTo(a.cookie, rotation.value, cookie)
                  && accounts.rows == old(accounts.rows)[id := old(accounts.rows)[id].(
                                        cookie := CookieAfter(a.cookie, cookie, guardReads))])
    {
      hide Run, AllLegal, MarkedOnce, InTurn, PicksOf, SetOf, LoginDid, Merged, CookieIdentity;
      if rotation.None? {
        return false;
      }
      var cookie := MergeSetCookie(a.cookie, rotation.value.pageSet);
      ghost var mid := cookie;
      cookie := MergeSetCookie(cookie, rotation.value.setCookie);
      assert RotatedTo(a.cookie, rotation.value, cookie) by {
        var e1 :| Merged(a.cookie, rotation.value.pageSet, e1, mid);
        var e2 :| Merged(mid, rotation.value.setCookie, e2, cookie);
      }
      if cookie != a.cookie {
        var step := UpdateCookie(id, cookie, guardReads);
        Extend(rows0, steps, step);
        NextInTurn(steps, step);
        OtherStepMarksNothing(steps, step, failed);
        accounts.UpdateAccountCookie(id, cookie, guardReads);
        steps := steps + [step];
        OthersStay(rows0, old(accounts.rows), accounts.rows, order, trials, done, PicksOf(steps), usable, picked, now);
      }
      return true;
    }

    /** Binds the account to the proxy of this request if it has no binding that works. */
    method BindIfNeeded(id: int, a: Account)
      requires Trying(id, a)
      modifies this`steps, accounts
      ensures Valid() && PicksOf(steps) == PicksOf(old(steps))
      ensures accounts.rows == old(accounts.rows)[id := old(accounts.rows)[id].(
                                 proxyId := BoundTo(a.proxyId, usable, picked))]
    {
      hide Run, AllLegal, MarkedOnce, InTurn, PicksOf, SetOf, LoginDid;
      if a.proxyId == 0 || !usable(a.proxyId) {
        var step := Bind(id, picked);
        Extend(rows0, steps, step);
        NextInTurn(steps, step);
        OtherStepMarksNothing(steps, step, failed);
        accounts.BindProxy(id, picked);
        steps := steps + [step];
        OthersStay(rows0, old(accounts.rows), accounts.rows, order, trials, done, PicksOf(steps), usable, picked, now);
      }
    }

    method FailAccount(id: int)
      requires Valid() && done + 1 == |order| && order[done] == id
      requires id in tried && id !in failed && id in accounts.rows
      modifies this`steps, this`failed, accounts
      ensures Valid() && failed == old(failed) + {id} && PicksOf(steps) == PicksOf(old(steps))
      ensures accounts.rows == old(accounts.rows)[id := Marked(old(accounts.rows)[id], 401, now)]
    {
      hide Run, AllLegal, MarkedOnce, InTurn, PicksOf, SetOf, LoginDid;
      var step := Mark(id, 401, now);
      Extend(rows0, steps, step);
      NextInTurn(steps, step);
      MarkMarks(steps, failed, id, now);
      accounts.MarkByStatus(id, 401, now);
      steps := steps + [step];
      failed := failed + {id};
      OthersStay(rows0, old(accounts.rows), accounts.rows, order, trials, done, PicksOf(steps), usable, picked, now);
    }

    method NextAccount() returns (id: Option<int>, a: Option<Account>)
      requires Valid() && order == PicksOf(steps) && done == |order|
      modifies this`steps, accounts
      ensures Valid()
      ensures IsPick(old(accounts.rows), tried, id) && accounts.rows == Apply(old(accounts.rows), Pick(tried, now, id))
      ensures id.Some? == a.Some?
      ensures id.None? ==> forall k :: !Eligible(accounts.rows, tried, k)
      ensures PicksOf(steps) == order + if id.Some? then [id.value] else []
      ensures id.Some? ==> id.value !in tried && id.value in accounts.rows
                           && accounts.rows[id.value] == a.value.(lastUsed := now)
    {
      hide Run, AllLegal, MarkedOnce, InTurn, PicksOf, SetOf, LoginDid;
      id, a := accounts.PickExcept(tried, now);
      if id.Some? { SetOfSnoc(order, id.value); }
      OnePickMore(rows0, old(accounts.rows), order, trials, done, PicksOf(steps), usable, picked, now, id);
      var step := Pick(tried, now, id);
      Extend(rows0, steps, step);
      NextInTurn(steps, step);
      OtherStepMarksNothing(steps, step, failed);
      steps := steps + [step];
    }

    /** Uses an account, at once or after a rotation, or marks it. */
    method UseOrMark(id: int, a: Account, trial: Trial) returns (cookie: string)
      requires Trying(id, a) && id in tried && id !in failed && id !in rotatedOnce
      modifies this`steps, this`failed, this`rotatedOnce, accounts
      ensures Valid() && PicksOf(steps) == PicksOf(old(steps))
      ensures failed == if Succeeds(trial) then old(failed) else old(failed) + {id}
      ensures id in accounts.rows && (Succeeds(trial) ==> accounts.rows[id].cookie == cookie)
      ensures cookie != "" <==> Succeeds(trial)
      ensures TriedOn(old(accounts.rows)[id], accounts.rows[id], trial, usable, picked, now)
      ensures accounts.rows == old(accounts.rows)[id := accounts.rows[id]]
    {
      hide Run, AllLegal, MarkedOnce, InTurn, PicksOf, SetOf, LoginDid, RotatedTo, CookieAfter, BoundTo;
      if trial.token {
        BindIfNeeded(id, a);
        return a.cookie;
      }
      if id !in rotatedOnce {
        rotatedOnce := rotatedOnce + {id};
        var rotated := RotateAccount(id, a, trial.rotation, trial.guardReads);
        if rotated && trial.rowReads && trial.again {
          var row := accounts.rows[id];
          BindIfNeeded(id, row);
          return row.cookie;
        }
      }
      FailAccount(id);
      return "";
    }

    /** Tries one account: it is used and bound, or it is marked. */
    method TryAccount(id: int, a: Account, trial: Trial) returns (cookie: string)
      requires Valid() && id !in tried && |tried| < MAX_TRIES && done == |order| && trial == trials(done)
      requires id in accounts.rows && accounts.rows[id] == a.(lastUsed := now)
      requires PicksOf(steps) == order + [id]
      modifies this, accounts
      ensures Valid() && tried == old(tried) + {id} && order == old(order) + [id] == PicksOf(steps) && done == |order|
      ensures cookie != "" <==> Succeeds(trial)
      ensures failed == if Succeeds(trial) then old(failed) else old(failed) + {id}
      ensures id in accounts.rows && (Succeeds(trial) ==> accounts.rows[id].cookie == cookie)
      ensures TriedOn(old(accounts.rows)[id], accounts.rows[id], trial, usable, picked, now)
      ensures accounts.rows == old(accounts.rows)[id := accounts.rows[id]]
    {
      hide Run, AllLegal, MarkedOnce, InTurn, PicksOf, SetOf, LoginDid, TriedOn, Succeeds;
      SetOfSnoc(order, id);
      BeginTrial(rows0, accounts.rows, order, trials, PicksOf(steps), usable, picked, now, id);
      tried, order := tried + {id}, order + [id];
      cookie := UseOrMark(id, a, trial);
      EndTrial(rows0, accounts.rows, order, trials, done, PicksOf(steps), usable, picked, now);
      done := done + 1;
    }

    /** All that were tried have failed, and `id` is the account to try next, if there is one. */
    ghost predicate Ready(first: Option<int>, id: Option<int>, a: Option<Account>)
      reads this, accounts
    {
      && Valid() && failed == tried && id.Some? == a.Some? && done == |order|
      && (id.Some? ==> id.value !in tried && id.value in accounts.rows
                       && accounts.rows[id.value] == a.value.(lastUsed := now))
      && PicksOf(steps) == order + (if id.Some? then [id.value] else [])
      && (if order == [] then id == first else first == Some(order[0]))
      && (order != [] && id.None? ==> forall k :: !Eligible(accounts.rows, tried, k))
    }

    /** One turn of the account loop. */
    method TryAndMoveOn(first: Option<int>, id: int, a: Account, trial: Trial)
      returns (cookie: string, next: Option<int>, row: Option<Account>)
      requires Ready(first, Some(id), Some(a)) && |tried| < MAX_TRIES && trial == trials(|order|)
      modifies this, accounts
      ensures order == old(order) + [id] && first == Some(order[0]) && |tried| == |order|
      ensures cookie != "" <==> Succeeds(trial)
      ensures cookie != "" ==> Valid() && done == |order| && id > 0 && failed == tried - {id} && tried != {}
                               && id in accounts.rows && accounts.rows[id].cookie == cookie && PicksOf(steps) == order
      ensures cookie == "" ==> Ready(first, next, row) && next.Some? == row.Some?
    {
      hide Run, AllLegal, MarkedOnce, LoginDid, IsPick, Apply, Succeeds, Eligible, InTurn, PicksOf, SetOf;
      next, row := None, None;
      cookie := TryAccount(id, a, trial);
      if cookie == "" {
        next, row := NextAccount();
      }
    }

    lemma NobodyLeft(first: Option<int>, id: Option<int>, a: Option<Account>)
      requires Ready(first, id, a) && (id.None? || |order| >= MAX_TRIES)
      requires forall i :: 0 <= i < |order| ==> !Succeeds(trials(i))
      ensures Valid() && done == |order| && failed == tried && (tried == {} <==> order == [])
        && Chosen(accounts.rows, trials, first, order, 0)
      ensures order != [] ==> PickedInVain(accounts.rows, steps, order, now)
    {
      hide Run, AllLegal, MarkedOnce, LoginDid, Succeeds, Eligible, InTurn;
      if id.Some? {
        assert id.value !in SetOf(order);
        OneInVain(accounts.rows, steps, order, now, id.value);
      } else {
        assert order + [] == order;
      }
    }

    /** What the rows and the bindings are when the choice is made. */
    lemma Settles(first: Option<int>, account: int)
      requires Valid() && done == |order| && Chosen(accounts.rows, trials, first, order, account)
      ensures LoginDid(rows0, accounts.rows, order, trials, |order|, PicksOf(steps), usable, picked, now)
      ensures BindingsAre(rows0, accounts.rows, usable, picked, account)
    {
      hide Run, AllLegal, MarkedOnce, InTurn, PicksOf, SetOf, TriedOn, Succeeds, BindingsAre;
      assert forall i :: 0 <= i < |order| ==> order[i] in rows0;
      LoginBinds(rows0, accounts.rows, order, trials, PicksOf(steps), usable, picked, now, account);
    }

    /** The account loop. It tries the accounts in the order they are picked, up to the first that
        can be used, three at most; it marks exactly those that cannot, and it stops early only when
        no account is left. Each row is what its own trial makes of it. */
    method AccountLoop(first: Option<int>, row: Option<Account>)
      returns (cookieId: int, cookie: string, error: bool)
      requires Ready(first, first, row) && order == [] && tried == {} && first.Some? == row.Some?
      modifies this, accounts
      ensures Valid() && done == |order|
      ensures LoginDid(rows0, accounts.rows, order, trials, |order|, PicksOf(steps), usable, picked, now)
      ensures BindingsAre(rows0, accounts.rows, usable, picked, if cookie != "" then cookieId else 0)
      ensures Chosen(accounts.rows, trials, first, order, if cookie != "" then cookieId else 0)
      ensures cookie != "" ==> cookieId > 0 && cookieId in accounts.rows && accounts.rows[cookieId].cookie == cookie
      ensures failed == if cookie != "" then tried - {cookieId} else tried
      ensures cookie == "" ==> (error <==> order != [])
      ensures if cookie != "" then PicksOf(steps) == order
              else order != [] ==> PickedInVain(accounts.rows, steps, order, now)
      ensures first.None? ==> cookieId == 0 && cookie == ""
    {
      hide Ready, Valid, Succeeds, PickedInVain, PicksOf;
      var id, acct := first, row;
      cookieId, cookie, error := 0, "", false;
      while id.Some? && |tried| < MAX_TRIES
        invariant Ready(first, id, acct) && |tried| == |order| && id.Some? == acct.Some? && cookie == ""
        invariant error <==> order != []
        invariant order == [] ==> id == first && cookieId == 0
        invariant order != [] ==> first == Some(order[0])
        invariant forall i :: 0 <= i < |order| ==> !Succeeds(trials(i))
        decreases MAX_TRIES - |order|
      {
        ghost var n := |order|;
        cookieId := id.value;
        cookie, id, acct := TryAndMoveOn(first, id.value, acct.value, trials(|tried|));
        if cookie != "" {
          assert FirstSuccess(trials, n);
          Settles(first, cookieId);
          return;
        }
        error := true;
      }
      NobodyLeft(first, id, acct);
      Settles(first, 0);
    }
  }

  lemma OneInVain(rows: Rows, steps: seq<AccountStep>, tried: seq<int>, now: int, id: int)
    requires PicksOf(steps) == tried + [id] && id !in tried && id in rows && rows[id].lastUsed == now
    ensures PickedInVain(rows, steps, tried, now)
  {
  }

  lemma SetOfSnoc(s: seq<int>, x: int)
    ensures SetOf(s + [x]) == SetOf(s) + {x} && (x in SetOf(s) <==> x in s)
  {
  }
}
