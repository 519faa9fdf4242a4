/** The proxy pool: the proxies table, the copy of it in memory, and the circuit breaker. */
module Proxies {
  import opened Text

  datatype Proxy = Proxy(id: int, name: string, url: string, enabled: bool, weight: int,
                         failCount: int, lastUsed: int, lastError: string, createdAt: int)

  const FAIL_THRESHOLD := 5

  predicate Usable(p: Proxy, now: int, cooldownMin: int) {
    && p.enabled
    && (p.failCount < FAIL_THRESHOLD || (cooldownMin > 0 && now - p.lastUsed >= cooldownMin * 60))
  }

  predicate ValidUrl(url: string) {
    var low := Lower(url);
    "http://" <= low || "https://" <= low || "socks5://" <= low || "socks5h://" <= low
  }

  // ---------- Rows ----------

  function FindId(rows: seq<Proxy>, id: int): (r: Option<Proxy>)
    ensures r.Some? ==> r.value in rows && r.value.id == id
    ensures r.None? ==> forall p :: p in rows ==> p.id != id
  {
    if rows == [] then None else if rows[0].id == id then Some(rows[0]) else FindId(rows[1..], id)
  }

  datatype Change =
    | Succeeded(now: int)
    | Failed(now: int, error: string)
    | ResetFailures
    | Edit(name: string, url: string, enabled: Option<bool>, weight: Option<int>)

  function Changed(p: Proxy, c: Change): Proxy {
    match c
    case Succeeded(now) => p.(failCount := 0, lastUsed := now, lastError := "")
    case Failed(now, error) => p.(failCount := p.failCount + 1, lastUsed := now, lastError := error)
    case ResetFailures => p.(failCount := 0, lastError := "")
    case Edit(name, url, enabled, weight) =>
      p.(name := if name != "" then name else p.name,
         url := if url != "" then url else p.url,
         enabled := if enabled.Some? then enabled.value else p.enabled,
         weight := if weight.Some? then weight.value else p.weight)
  }

  /** UPDATE ... WHERE id = id */
  function UpdateRows(rows: seq<Proxy>, id: int, c: Change): seq<Proxy> {
    seq(|rows|, i requires 0 <= i < |rows| => if rows[i].id == id then Changed(rows[i], c) else rows[i])
  }

  /** Changing the first row with the id. */
  function UpdateFirst(rows: seq<Proxy>, id: int, c: Change): seq<Proxy> {
    if rows == [] then []
    else if rows[0].id == id then [Changed(rows[0], c)] + rows[1..]
    else [rows[0]] + UpdateFirst(rows[1..], id, c)
  }

  lemma {:induction false} FirstIsAt(rows: seq<Proxy>, id: int, c: Change, i: nat)
    requires i <= |rows| && forall j :: 0 <= j < i ==> rows[j].id != id
    requires i < |rows| ==> rows[i].id == id
    ensures UpdateFirst(rows, id, c) == if i < |rows| then rows[i := Changed(rows[i], c)] else rows
  {
    if i > 0 {
      FirstIsAt(rows[1..], id, c, i - 1);
    }
  }

  /** DELETE ... WHERE id = id */
  function DeleteRows(rows: seq<Proxy>, id: int): (r: seq<Proxy>)
    ensures forall p :: p in r <==> p in rows && p.id != id
  {
    if rows == [] then []
    else (if rows[0].id == id then [] else [rows[0]]) + DeleteRows(rows[1..], id)
  }

  /** Rows in the order of ORDER BY id; ids are never used twice. */
  ghost predicate Ordered(rows: seq<Proxy>) {
    forall i, j :: 0 <= i < j < |rows| ==> rows[i].id < rows[j].id
  }

  lemma {:induction false} FirstIsOnly(rows: seq<Proxy>, id: int, c: Change)
    requires Ordered(rows)
    ensures UpdateFirst(rows, id, c) == UpdateRows(rows, id, c)
  {
    hide Changed;
    if rows != [] {
      if rows[0].id == id {
        assert UpdateRows(rows, id, c) == [Changed(rows[0], c)] + rows[1..];
      } else {
        FirstIsOnly(rows[1..], id, c);
        assert UpdateRows(rows, id, c) == [rows[0]] + UpdateRows(rows[1..], id, c);
      }
    }
  }

  lemma {:induction false} DeleteOrdered(rows: seq<Proxy>, id: int)
    requires Ordered(rows)
    ensures Ordered(DeleteRows(rows, id))
  {
    if rows != [] {
      DeleteOrdered(rows[1..], id);
      forall p | p in DeleteRows(rows[1..], id)
        ensures rows[0].id < p.id
      {
        var i :| 0 <= i < |rows[1..]| && rows[1..][i] == p;
      }
    }
  }

  // ---------- Steps ----------

  datatype ReadFault = NoFault | QueryFails | RowFails(row: nat) | IterationBreaks(after: nat)

  /** Table, memory copy, and the next id of the id sequence. */
  datatype Pool = Pool(table: seq<Proxy>, cache: seq<Proxy>, nextId: int)

  datatype PoolStep =
    | Create(name: string, url: string, weight: int, now: int, fault: ReadFault)
    | Update(id: int, edit: Change, fault: ReadFault)
    | Delete(id: int, fault: ReadFault)
    | Reset(id: int, fault: ReadFault)
    | Record(id: int, result: Change)
    | Reload(fault: ReadFault)

  ghost predicate ReadOk(rows: nat, fault: ReadFault) {
    fault == NoFault || (fault.RowFails? && fault.row >= rows)
  }

  ghost function Loaded(s: Pool, fault: ReadFault): Pool {
    if ReadOk(|s.table|, fault) then s.(cache := s.table) else s
  }

  function NewRow(id: int, name: string, url: string, weight: int, now: int): Proxy {
    Proxy(id, name, url, true, if weight <= 0 then 1 else weight, 0, 0, "", now)
  }

  predicate Creatable(name: string, url: string) {
    name != "" && url != "" && ValidUrl(url)
  }

  ghost function Apply(s: Pool, step: PoolStep): Pool {
    match step
    case Create(name, url, weight, now, fault) =>
      if Creatable(name, url) then
        Loaded(s.(table := s.table + [NewRow(s.nextId, name, url, weight, now)], nextId := s.nextId + 1), fault)
      else s
    case Update(id, edit, fault) =>
      if edit.Edit? && edit != Edit("", "", None, None) then
        Loaded(s.(table := UpdateRows(s.table, id, edit)), fault)
      else s
    case Delete(id, fault) => Loaded(s.(table := DeleteRows(s.table, id)), fault)
    case Reset(id, fault) => Loaded(s.(table := UpdateRows(s.table, id, ResetFailures)), fault)
    case Record(id, result) =>
      if id != 0 && (result.Succeeded? || result.Failed?) then
        s.(table := UpdateRows(s.table, id, result), cache := UpdateFirst(s.cache, id, result))
      else s
    case Reload(fault) => Loaded(s, fault)
  }

  ghost function Run(s: Pool, steps: seq<PoolStep>): Pool
    decreases |steps|
  {
    if steps == [] then s else Run(Apply(s, steps[0]), steps[1..])
  }

  // ---------- The memory copy is the table ----------

  ghost predicate Sound(s: Pool) {
    Ordered(s.table) && forall p :: p in s.table ==> 0 < p.id < s.nextId
  }

  ghost predicate Agrees(s: Pool) {
    Sound(s) && s.cache == s.table
  }

  ghost predicate ReadsSucceed(step: PoolStep) {
    step.Record? || step.fault == NoFault
  }

  lemma UpdateKeepsIds(rows: seq<Proxy>, id: int, c: Change)
    ensures var r := UpdateRows(rows, id, c);
            |r| == |rows| && forall i :: 0 <= i < |r| ==> r[i].id == rows[i].id
  {
  }

  lemma StepKeepsSound(s: Pool, step: PoolStep)
    requires Sound(s) && s.nextId > 0
    ensures Sound(Apply(s, step)) && Apply(s, step).nextId >= s.nextId
  {
    hide ValidUrl;
    match step
    case Create(name, url, weight, now, fault) =>
      if Creatable(name, url) {
        var row := NewRow(s.nextId, name, url, weight, now);
        forall i | 0 <= i < |s.table|
          ensures s.table[i].id < row.id
        {
          assert s.table[i] in s.table;
        }
      }
    case Update(id, edit, fault) =>
      UpdateKeepsSound(s, id, edit);
    case Delete(id, fault) =>
      DeleteOrdered(s.table, id);
    case Reset(id, fault) =>
      UpdateKeepsSound(s, id, ResetFailures);
    case Record(id, result) =>
      UpdateKeepsSound(s, id, result);
    case Reload(fault) =>
  }

  lemma UpdateKeepsSound(s: Pool, id: int, c: Change)
    requires Sound(s)
    ensures Sound(s.(table := UpdateRows(s.table, id, c)))
  {
    var r := UpdateRows(s.table, id, c);
    UpdateKeepsIds(s.table, id, c);
    forall p | p in r
      ensures 0 < p.id < s.nextId
    {
      var i :| 0 <= i < |r| && r[i] == p;
      assert s.table[i] in s.table;
    }
  }

  /** With reads that succeed, every step keeps the memory copy equal to the table. */
  lemma {:induction false} CacheIsTable(s: Pool, steps: seq<PoolStep>)
    requires Agrees(s) && s.nextId > 0
    requires forall step :: step in steps ==> ReadsSucceed(step)
    ensures Agrees(Run(s, steps))
    decreases |steps|
  {
    hide Ordered, UpdateRows, UpdateFirst, DeleteRows;
    if steps != [] {
      assert ReadsSucceed(steps[0]);
      StepKeepsSound(s, steps[0]);
      if steps[0].Record? {
        FirstIsOnly(s.table, steps[0].id, steps[0].result);
      }
      CacheIsTable(Apply(s, steps[0]), steps[1..]);
    }
  }

  // ---------- The breaker ----------

  /** Whatever row has the id has failed too often, last at `t` or later. */
  ghost predicate DownSince(rows: seq<Proxy>, id: int, t: int) {
    forall p :: p in rows && p.id == id ==> p.failCount >= FAIL_THRESHOLD && p.lastUsed >= t
  }

  /** The step neither records a success for the id nor resets it, and its clock is not before `t`. */
  ghost predicate NoRelief(step: PoolStep, id: int, t: int) {
    && !(step.Reset? && step.id == id)
    && (step.Record? && step.id == id ==> !step.result.Succeeded? && (step.result.Failed? ==> step.result.now >= t))
  }

  lemma {:induction false} FirstFromRows(rows: seq<Proxy>, id: int, c: Change, p: Proxy)
    requires p in UpdateFirst(rows, id, c)
    ensures p in rows || exists q :: q in rows && q.id == id && p == Changed(q, c)
  {
    if rows != [] && rows[0].id != id && p != rows[0] {
      FirstFromRows(rows[1..], id, c, p);
    } else if rows != [] && rows[0].id == id && p == Changed(rows[0], c) {
      assert rows[0] in rows;
    }
  }

  lemma UpdateKeepsDown(rows: seq<Proxy>, at: int, c: Change, id: int, t: int)
    requires DownSince(rows, id, t)
    requires at == id ==> c.Edit? || (c.Failed? && c.now >= t)
    ensures DownSince(UpdateRows(rows, at, c), id, t) && DownSince(UpdateFirst(rows, at, c), id, t)
  {
    forall p | p in UpdateRows(rows, at, c) && p.id == id
      ensures p.failCount >= FAIL_THRESHOLD && p.lastUsed >= t
    {
      var i :| 0 <= i < |rows| && UpdateRows(rows, at, c)[i] == p;
      assert rows[i] in rows;
    }
    forall p | p in UpdateFirst(rows, at, c) && p.id == id
      ensures p.failCount >= FAIL_THRESHOLD && p.lastUsed >= t
    {
      FirstFromRows(rows, at, c, p);
    }
  }

  lemma StepKeepsDown(s: Pool, step: PoolStep, id: int, t: int)
    requires DownSince(s.table, id, t) && DownSince(s.cache, id, t)
    requires id < s.nextId && NoRelief(step, id, t)
    ensures var r := Apply(s, step);
            DownSince(r.table, id, t) && DownSince(r.cache, id, t) && id < r.nextId
  {
    hide UpdateRows, UpdateFirst;
    match step
    case Create(name, url, weight, now, fault) =>
    case Update(at, edit, fault) =>
      if edit.Edit? { UpdateKeepsDown(s.table, at, edit, id, t); }
    case Delete(at, fault) =>
    case Reset(at, fault) =>
      UpdateKeepsDown(s.table, at, ResetFailures, id, t);
    case Record(at, result) =>
      if result.Succeeded? || result.Failed? {
        UpdateKeepsDown(s.table, at, result, id, t);
        UpdateKeepsDown(s.cache, at, result, id, t);
      }
    case Reload(fault) =>
  }

  /** A proxy that is down at `t` is not usable before the cooldown is over, whatever happens in
      between except a success or a reset, and whatever reads fail. */
  lemma {:induction false} DownUntilCooldown(s: Pool, steps: seq<PoolStep>, id: int, t: int, now: int, cooldownMin: int)
    requires DownSince(s.table, id, t) && DownSince(s.cache, id, t) && id < s.nextId
    requires forall step :: step in steps ==> NoRelief(step, id, t)
    requires cooldownMin <= 0 || now < t + cooldownMin * 60
    ensures forall p :: p in Run(s, steps).cache && p.id == id ==> !Usable(p, now, cooldownMin)
    decreases |steps|
  {
    hide Apply, NoRelief;
    if steps != [] {
      StepKeepsDown(s, steps[0], id, t);
      DownUntilCooldown(Apply(s, steps[0]), steps[1..], id, t, now, cooldownMin);
    }
  }

  /** The failure that reaches the threshold takes the proxy down at its own time. */
  lemma FifthFailureTrips(s: Pool, id: int, t: int, error: string)
    requires Agrees(s) && id != 0
    requires forall p :: p in s.table && p.id == id ==> p.failCount >= FAIL_THRESHOLD - 1
    ensures var r := Apply(s, Record(id, Failed(t, error)));
            DownSince(r.table, id, t) && DownSince(r.cache, id, t)
  {
    var c := Failed(t, error);
    FirstIsOnly(s.table, id, c);
    forall p | p in UpdateRows(s.table, id, c) && p.id == id
      ensures p.failCount >= FAIL_THRESHOLD && p.lastUsed >= t
    {
      var i :| 0 <= i < |s.table| && UpdateRows(s.table, id, c)[i] == p;
      assert s.table[i] in s.table;
    }
  }

  /** The row with the id is there, enabled, over the threshold, and last used at `t`. */
  ghost predicate Resting(rows: seq<Proxy>, id: int, t: int) {
    && (exists p :: p in rows && p.id == id)
    && (forall p :: p in rows && p.id == id ==> p.enabled && p.failCount >= FAIL_THRESHOLD && p.lastUsed == t)
  }

  /** The step does not touch the row with the id, except to edit it without disabling it. */
  ghost predicate LeavesResting(step: PoolStep, id: int) {
    match step
    case Update(at, edit, fault) => at == id ==> edit.Edit? && edit.enabled != Some(false)
    case Delete(at, fault) => at != id
    case Reset(at, fault) => at != id
    case Record(at, result) => at != id
    case _ => true
  }

  lemma {:induction false} FirstKeepsOthers(rows: seq<Proxy>, at: int, c: Change, p: Proxy)
    requires p in rows && p.id != at
    ensures p in UpdateFirst(rows, at, c)
  {
    if rows[0].id != at && p != rows[0] {
      FirstKeepsOthers(rows[1..], at, c, p);
    }
  }

  lemma UpdateKeepsResting(rows: seq<Proxy>, at: int, c: Change, id: int, t: int)
    requires Resting(rows, id, t)
    requires at == id ==> c.Edit? && c.enabled != Some(false)
    ensures Resting(UpdateRows(rows, at, c), id, t)
    ensures at != id ==> Resting(UpdateFirst(rows, at, c), id, t)
  {
    var r := UpdateRows(rows, at, c);
    var q :| q in rows && q.id == id;
    var k :| 0 <= k < |rows| && rows[k] == q;
    assert r[k] in r && r[k].id == id;
    forall p | p in r && p.id == id
      ensures p.enabled && p.failCount >= FAIL_THRESHOLD && p.lastUsed == t
    {
      var i :| 0 <= i < |rows| && r[i] == p;
      assert rows[i] in rows;
    }
    if at != id {
      FirstKeepsOthers(rows, at, c, q);
      forall p | p in UpdateFirst(rows, at, c) && p.id == id
        ensures p in rows
      {
        FirstFromRows(rows, at, c, p);
      }
    }
  }

  lemma StepKeepsResting(s: Pool, step: PoolStep, id: int, t: int)
    requires Resting(s.table, id, t) && Resting(s.cache, id, t)
    requires id < s.nextId && LeavesResting(step, id)
    ensures var r := Apply(s, step);
            Resting(r.table, id, t) && Resting(r.cache, id, t) && id < r.nextId
  {
    hide UpdateRows, UpdateFirst;
    match step
    case Create(name, url, weight, now, fault) =>
      var q :| q in s.table && q.id == id;
      assert q in s.table + [NewRow(s.nextId, name, url, weight, now)];
    case Update(at, edit, fault) =>
      if edit.Edit? { UpdateKeepsResting(s.table, at, edit, id, t); }
    case Delete(at, fault) =>
    case Reset(at, fault) =>
      UpdateKeepsResting(s.table, at, ResetFailures, id, t);
    case Record(at, result) =>
      UpdateKeepsResting(s.table, at, result, id, t);
      UpdateKeepsResting(s.cache, at, result, id, t);
    case Reload(fault) =>
  }

  /** A tripped proxy that is left alone comes back by itself, at the end of the cooldown and
      not before; without a cooldown it never does. */
  lemma {:induction false} BackAfterCooldown(s: Pool, steps: seq<PoolStep>, id: int, t: int, now: int, cooldownMin: int)
    requires Resting(s.table, id, t) && Resting(s.cache, id, t) && id < s.nextId
    requires forall step :: step in steps ==> LeavesResting(step, id)
    ensures (exists p :: p in Run(s, steps).cache && p.id == id && Usable(p, now, cooldownMin))
       <==> cooldownMin > 0 && now >= t + cooldownMin * 60
    decreases |steps|
  {
    hide Apply, LeavesResting;
    if steps != [] {
      StepKeepsResting(s, steps[0], id, t);
      BackAfterCooldown(Apply(s, steps[0]), steps[1..], id, t, now, cooldownMin);
    } else if cooldownMin > 0 && now >= t + cooldownMin * 60 {
      var p :| p in s.cache && p.id == id;
      assert Usable(p, now, cooldownMin);
    }
  }

  /** A proxy that is created is in the list at once, under a new id, and usable at any time. */
  lemma NewProxyIsReady(s: Pool, name: string, url: string, weight: int, at: int, now: int, cooldownMin: int)
    requires Agrees(s) && Creatable(name, url)
    ensures var r := Apply(s, Create(name, url, weight, at, NoFault));
            exists p :: p in r.cache && p !in s.cache && p.id == s.nextId && p.name == name && p.url == url
                        && p.weight == (if weight >= 1 then weight else 1) && Usable(p, now, cooldownMin)
  {
    hide Creatable;
    var p := NewRow(s.nextId, name, url, weight, at);
    assert p in s.table + [p];
  }

  // ---------- One proxy since its last success or reset ----------

  predicate FailureOf(step: PoolStep, id: int) {
    step.Record? && step.id == id && step.result.Failed?
  }

  predicate Relief(step: PoolStep, id: int) {
    (step.Reset? && step.id == id) || (step.Record? && step.id == id && step.result.Succeeded?)
  }

  /** The failures that are recorded for the id. */
  function FailuresIn(steps: seq<PoolStep>, id: int): nat {
    if steps == [] then 0 else (if FailureOf(steps[0], id) then 1 else 0) + FailuresIn(steps[1..], id)
  }

  /** When the last of them was recorded, or `t` if there is none. */
  function LastFailure(steps: seq<PoolStep>, id: int, t: int): int
    decreases |steps|
  {
    if steps == [] then t
    else LastFailure(steps[1..], id, if FailureOf(steps[0], id) then steps[0].result.now else t)
  }

  /** Whether the proxy is switched on, by the last edit that says so. */
  function SwitchedOn(steps: seq<PoolStep>, id: int, on: bool): bool
    decreases |steps|
  {
    if steps == [] then on
    else
      var e := steps[0];
      SwitchedOn(steps[1..], id,
                 if e.Update? && e.id == id && e.edit.Edit? && e.edit.enabled.Some? then e.edit.enabled.value else on)
  }

  lemma {:induction false} FindUpdated(rows: seq<Proxy>, at: int, c: Change, id: int)
    ensures FindId(UpdateRows(rows, at, c), id) ==
            match FindId(rows, id)
            case Some(p) => Some(if at == id then Changed(p, c) else p)
            case None => None
  {
    if rows != [] {
      assert UpdateRows(rows, at, c)[1..] == UpdateRows(rows[1..], at, c);
      FindUpdated(rows[1..], at, c, id);
    }
  }

  lemma {:induction false} FindAppended(rows: seq<Proxy>, p: Proxy, id: int)
    requires FindId(rows, id).Some?
    ensures FindId(rows + [p], id) == FindId(rows, id)
  {
    if rows[0].id != id {
      assert (rows + [p])[1..] == rows[1..] + [p];
      FindAppended(rows[1..], p, id);
    }
  }

  lemma {:induction false} FindUndeleted(rows: seq<Proxy>, at: int, id: int)
    requires at != id
    ensures FindId(DeleteRows(rows, at), id) == FindId(rows, id)
  {
    if rows != [] {
      var rest := DeleteRows(rows[1..], at);
      FindUndeleted(rows[1..], at, id);
      assert ([rows[0]] + rest)[0] == rows[0] && ([rows[0]] + rest)[1..] == rest && [] + rest == rest;
    }
  }

  /** What one step does to the row of one proxy. */
  lemma StepOnRow(s: Pool, step: PoolStep, id: int)
    requires FindId(s.table, id).Some? && id != 0 && !(step.Delete? && step.id == id)
    ensures var r, p := FindId(Apply(s, step).table, id), FindId(s.table, id).value;
            && r.Some?
            && r.value.enabled == SwitchedOn([step], id, p.enabled)
            && r.value.failCount == (if Relief(step, id) then 0 else p.failCount + FailuresIn([step], id))
            && (!Relief(step, id) ==> r.value.lastUsed == LastFailure([step], id, p.lastUsed))
  {
    hide UpdateRows, DeleteRows, FindId;
    assert [step][1..] == [];
    match step
    case Create(name, url, weight, now, fault) =>
      FindAppended(s.table, NewRow(s.nextId, name, url, weight, now), id);
    case Update(at, edit, fault) =>
      FindUpdated(s.table, at, edit, id);
    case Delete(at, fault) =>
      FindUndeleted(s.table, at, id);
    case Reset(at, fault) =>
      FindUpdated(s.table, at, ResetFailures, id);
    case Record(at, result) =>
      FindUpdated(s.table, at, result, id);
    case Reload(fault) =>
  }

  lemma {:induction false} LaterRow(s: Pool, later: seq<PoolStep>, id: int)
    requires FindId(s.table, id).Some? && id != 0
    requires forall step :: step in later ==> !Relief(step, id) && !(step.Delete? && step.id == id)
    ensures var r, p := FindId(Run(s, later).table, id), FindId(s.table, id).value;
            && r.Some?
            && r.value.enabled == SwitchedOn(later, id, p.enabled)
            && r.value.failCount == p.failCount + FailuresIn(later, id)
            && r.value.lastUsed == LastFailure(later, id, p.lastUsed)
    decreases |later|
  {
    hide Apply, FindId;
    if later != [] {
      assert later[0] in later && [later[0]][1..] == [];
      StepOnRow(s, later[0], id);
      LaterRow(Apply(s, later[0]), later[1..], id);
    }
  }

  lemma {:induction false} LastOfMany(steps: seq<PoolStep>, id: int, t: int, t': int)
    requires FailuresIn(steps, id) > 0
    ensures LastFailure(steps, id, t) == LastFailure(steps, id, t')
    decreases |steps|
  {
    if FailuresIn(steps[1..], id) > 0 {
      LastOfMany(steps[1..], id, if FailureOf(steps[0], id) then steps[0].result.now else t,
                 if FailureOf(steps[0], id) then steps[0].result.now else t');
    } else {
      NoFailure(steps[1..], id, steps[0].result.now);
    }
  }

  lemma {:induction false} NoFailure(steps: seq<PoolStep>, id: int, t: int)
    requires FailuresIn(steps, id) == 0
    ensures LastFailure(steps, id, t) == t
  {
    if steps != [] { NoFailure(steps[1..], id, t); }
  }

  /** Since its last success or reset, a proxy is usable if and only if it is switched on and has fewer than
      five failures since then, or a cooldown that is over since the last of them. */
  lemma UsableSinceRelief(s: Pool, relief: PoolStep, later: seq<PoolStep>, id: int, now: int, cooldownMin: int)
    requires Agrees(s) && s.nextId > 0 && FindId(s.table, id).Some?
    requires Relief(relief, id) && ReadsSucceed(relief)
    requires forall step :: step in later ==>
               ReadsSucceed(step) && !Relief(step, id) && !(step.Delete? && step.id == id)
    ensures var r := FindId(Run(s, [relief] + later).cache, id);
            && r.Some?
            && (Usable(r.value, now, cooldownMin) <==>
                  && SwitchedOn(later, id, FindId(s.table, id).value.enabled)
                  && (FailuresIn(later, id) < 5
                      || (cooldownMin > 0 && now - LastFailure(later, id, 0) >= cooldownMin * 60)))
  {
    hide Apply, FindId, Agrees, Relief, FailuresIn, LastFailure, SwitchedOn, Run;
    var mid := Apply(s, relief);
    assert ([relief] + later)[0] == relief && ([relief] + later)[1..] == later;
    PositiveIds(s, id);
    AfterRelief(relief, id, FindId(s.table, id).value.enabled);
    StepOnRow(s, relief, id);
    LaterRow(mid, later, id);
    CacheIsTable(s, [relief] + later);
    RunFirst(s, relief, later);
    CopyIsTable(Run(s, [relief] + later));
    if FailuresIn(later, id) > 0 { LastOfMany(later, id, FindId(mid.table, id).value.lastUsed, 0); }
  }

  lemma PositiveIds(s: Pool, id: int)
    requires Agrees(s) && FindId(s.table, id).Some?
    ensures id > 0
  {
    hide Ordered;
  }

  lemma AfterRelief(relief: PoolStep, id: int, on: bool)
    requires Relief(relief, id)
    ensures SwitchedOn([relief], id, on) == on && !relief.Delete?
  {
    assert [relief][1..] == [];
  }

  lemma RunFirst(s: Pool, step: PoolStep, later: seq<PoolStep>)
    ensures Run(s, [step] + later) == Run(Apply(s, step), later)
  {
    hide Apply;
    assert ([step] + later)[1..] == later;
  }

  lemma CopyIsTable(s: Pool)
    requires Agrees(s)
    ensures s.cache == s.table
  {
  }

  // ---------- The pool never looks empty ----------

  ghost predicate TableNeverEmpty(s: Pool, steps: seq<PoolStep>)
    decreases |steps|
  {
    s.table != [] && (steps == [] || TableNeverEmpty(Apply(s, steps[0]), steps[1..]))
  }

  lemma {:induction false} FirstKeepsLength(rows: seq<Proxy>, id: int, c: Change)
    ensures |UpdateFirst(rows, id, c)| == |rows|
  {
    if rows != [] { FirstKeepsLength(rows[1..], id, c); }
  }

  /** Once loaded, the memory copy is never empty while the table is not, whatever reads fail. */
  lemma {:induction false} CacheNeverEmpty(s: Pool, steps: seq<PoolStep>)
    requires s.cache != [] && TableNeverEmpty(s, steps)
    ensures Run(s, steps).cache != []
    decreases |steps|
  {
    hide UpdateRows, UpdateFirst, DeleteRows, Creatable, ReadOk;
    if steps != [] {
      if steps[0].Record? {
        FirstKeepsLength(s.cache, steps[0].id, steps[0].result);
      }
      assert Apply(s, steps[0]).cache != [] by {
        assert Apply(s, steps[0]).table != [];
      }
      CacheNeverEmpty(Apply(s, steps[0]), steps[1..]);
    }
  }

  // ---------- The pool in the service ----------

  class ProxyStore {
    var table: seq<Proxy>
    var cache: seq<Proxy>
    var nextId: int

    ghost function State(): Pool
      reads this
    {
      Pool(table, cache, nextId)
    }

    /** Starts on a database with the given rows. */
    constructor (rows: seq<Proxy>, next: int)
      ensures State() == Pool(rows, [], next)
    {
      table, cache, nextId := rows, [], next;
    }

    /** Reads all rows first, so that a read that breaks off leaves the old list in place. */
    method LoadProxies(fault: ReadFault)
      modifies this`cache
      ensures State() == Apply(old(State()), Reload(fault))
    {
      if fault.QueryFails? {
        return;
      }
      var list: seq<Proxy> := [];
      var row := 0;
      while row < |table| && !(fault.IterationBreaks? && row == fault.after)
        invariant 0 <= row <= |table| && list == table[..row]
        invariant fault.RowFails? ==> row <= fault.row
      {
        if fault.RowFails? && row == fault.row {
          return;
        }
        list := list + [table[row]];
        row := row + 1;
      }
      if fault.IterationBreaks? {
        return;
      }
      cache := list;
    }

    method RecordProxyResult(id: int, success: bool, error: string, now: int)
      modifies this`table, this`cache
      ensures State() == Apply(old(State()), Record(id, if success then Succeeded(now) else Failed(now, error)))
    {
      if id == 0 {
        return;
      }
      hide UpdateRows, UpdateFirst, Changed;
      var c := if success then Succeeded(now) else Failed(now, error);
      table := UpdateRows(table, id, c);
      var i := 0;
      while i < |cache|
        invariant 0 <= i <= |cache| && cache == old(cache)
        invariant forall j :: 0 <= j < i ==> cache[j].id != id
      {
        if cache[i].id != id {
          i := i + 1;
          continue;
        }
        FirstIsAt(cache, id, c, i);
        cache := cache[i := Changed(cache[i], c)];
        return;
      }
      FirstIsAt(cache, id, c, i);
    }

    method ProxyCreate(name: string, url: string, weight: int, now: int, fault: ReadFault) returns (id: Option<int>)
      modifies this
      ensures State() == Apply(old(State()), Create(name, url, weight, now, fault))
      ensures id == if Creatable(name, url) then Some(old(nextId)) else None
    {
      if name == "" || url == "" {
        return None;
      }
      if !ValidUrl(url) {
        return None;
      }
      id := Some(nextId);
      table := table + [NewRow(nextId, name, url, weight, now)];
      nextId := nextId + 1;
      LoadProxies(fault);
    }

    method ProxyUpdate(id: int, name: string, url: string, enabled: Option<bool>, weight: Option<int>, fault: ReadFault)
      modifies this
      ensures State() == Apply(old(State()), Update(id, Edit(name, url, enabled, weight), fault))
    {
      if name == "" && url == "" && enabled.None? && weight.None? {
        return;
      }
      table := UpdateRows(table, id, Edit(name, url, enabled, weight));
      LoadProxies(fault);
    }

    method ProxyDelete(id: int, fault: ReadFault)
      modifies this
      ensures State() == Apply(old(State()), Delete(id, fault))
    {
      table := DeleteRows(table, id);
      LoadProxies(fault);
    }

    method ProxyResetFailures(id: int, fault: ReadFault)
      modifies this
      ensures State() == Apply(old(State()), Reset(id, fault))
    {
      table := UpdateRows(table, id, ResetFailures);
      LoadProxies(fault);
    }
  }
}
