/** Start-up parameters and legacy settings, merged into the proxy pool declaratively. */
module Seeding {
  import opened Text
  import opened Proxies

  const LEGACY_NAME := "原静态代理"
  const SEED_NAME := "启动参数"

  /** What the key-value table remembers between starts. */
  datatype Memory = Memory(legacyDone: bool, seedUrl: string, seedId: Option<int>)

  datatype State = State(pool: Pool, memory: Memory)

  predicate HasUrl(rows: seq<Proxy>, url: string) {
    exists p :: p in rows && p.url == url
  }

  // ---------- One start ----------

  /** migrateLegacyStaticProxy, for the legacy value `raw`. */
  ghost function Migrated(s: State, raw: string, now: int): State {
    var v := TrimSpace(raw);
    var done := s.(memory := s.memory.(legacyDone := true));
    if s.memory.legacyDone then s
    else if v == "" then done
    else if HasUrl(s.pool.cache, v) then done
    else if !ValidUrl(v) then s
    else done.(pool := Apply(s.pool, Create(LEGACY_NAME, v, 1, now, NoFault)))
  }

  /** dropSeededProxy: only a record that still has the URL it was made with. */
  ghost function Dropped(s: State): Pool {
    var m := s.memory;
    if m.seedId.None? || m.seedUrl == "" || m.seedId.value <= 0 then s.pool
    else
      var found := FindId(s.pool.cache, m.seedId.value);
      if found.Some? && found.value.url == m.seedUrl then Apply(s.pool, Delete(m.seedId.value, NoFault)) else s.pool
  }

  /** syncSeededProxy, for the parameter `raw`. */
  ghost function Synced(s: State, raw: string, now: int): State {
    var url := TrimSpace(raw);
    if url == s.memory.seedUrl then s
    else
      var pool := Dropped(s);
      if url == "" then State(pool, s.memory.(seedUrl := "", seedId := None))
      else if HasUrl(pool.cache, url) then State(pool, s.memory.(seedUrl := url, seedId := None))
      else if !ValidUrl(url) then State(pool, s.memory)
      else State(Apply(pool, Create(SEED_NAME, url, 1, now, NoFault)),
                 s.memory.(seedUrl := url, seedId := Some(pool.nextId)))
  }

  /** A start of the service: load, migrate, follow the parameter. */
  ghost function Start(s: State, legacy: string, param: string, now: int): State {
    var loaded := s.(pool := Apply(s.pool, Reload(NoFault)));
    Synced(Migrated(loaded, legacy, now), param, now)
  }

  class Seeder {
    const store: ProxyStore
    const legacy: string
    var memory: Memory

    constructor (store: ProxyStore, legacy: string)
      ensures this.store == store && this.legacy == legacy && memory == Memory(false, "", None)
    {
      this.store, this.legacy := store, legacy;
      memory := Memory(false, "", None);
    }

    ghost function Now(): State
      reads this, store
    {
      State(store.State(), memory)
    }

    method PoolHasUrl(url: string) returns (found: bool)
      ensures found == HasUrl(store.cache, url)
    {
      for i := 0 to |store.cache|
        invariant forall j :: 0 <= j < i ==> store.cache[j].url != url
      {
        if store.cache[i].url == url {
          assert store.cache[i] in store.cache;
          return true;
        }
      }
      return false;
    }

    method MigrateLegacy(now: int)
      modifies this, store
      ensures Now() == Migrated(old(Now()), legacy, now)
    {
      hide Apply, HasUrl, TrimSpace, ValidUrl;
      if memory.legacyDone {
        return;
      }
      var v := TrimSpace(legacy);
      if v == "" {
        memory := memory.(legacyDone := true);
        return;
      }
      var present := PoolHasUrl(v);
      if !present {
        var id := store.ProxyCreate(LEGACY_NAME, v, 1, now, NoFault);
        RefusedCreateIsNothing(old(store.State()), LEGACY_NAME, v, now);
        if id.None? {
          return;
        }
      }
      memory := memory.(legacyDone := true);
    }

    method DropSeeded()
      modifies store
      ensures store.State() == Dropped(old(Now()))
    {
      hide Apply;
      if memory.seedId.None? || memory.seedUrl == "" {
        return;
      }
      var id := memory.seedId.value;
      if id <= 0 {
        return;
      }
      var found := FindId(store.cache, id);
      if found.None? || found.value.url != memory.seedUrl {
        return;
      }
      store.ProxyDelete(id, NoFault);
    }

    method SyncSeeded(param: string, now: int)
      modifies this, store
      ensures Now() == Synced(old(Now()), param, now)
    {
      hide Apply, HasUrl, TrimSpace, ValidUrl, Dropped;
      var url := TrimSpace(param);
      if url == memory.seedUrl {
        return;
      }
      DropSeeded();
      if url == "" {
        memory := memory.(seedUrl := "", seedId := None);
        return;
      }
      var present := PoolHasUrl(url);
      if present {
        memory := memory.(seedUrl := url, seedId := None);
        return;
      }
      ghost var pool := store.State();
      var id := store.ProxyCreate(SEED_NAME, url, 1, now, NoFault);
      RefusedCreateIsNothing(pool, SEED_NAME, url, now);
      if id.None? {
        return;
      }
      memory := memory.(seedUrl := url, seedId := id);
    }

    method Restart(param: string, now: int)
      modifies this, store
      ensures Now() == Start(old(Now()), legacy, param, now)
    {
      hide Apply, Migrated, Synced;
      store.LoadProxies(NoFault);
      MigrateLegacy(now);
      SyncSeeded(param, now);
    }
  }

  lemma RefusedCreateIsNothing(s: Pool, name: string, url: string, now: int)
    requires name != "" && url != ""
    ensures Creatable(name, url) == ValidUrl(url)
    ensures !ValidUrl(url) ==> Apply(s, Create(name, url, 1, now, NoFault)) == s
  {
    hide ValidUrl;
  }

  // ---------- Starting again and again ----------

  ghost predicate InOrder(s: State) {
    Agrees(s.pool) && s.pool.nextId > 0
  }

  /** The pool is `base`, and the record of the last parameter if it was not in it. */
  ghost predicate Follows(s: State, base: seq<Proxy>, url: string) {
    && InOrder(s)
    && s.memory.seedUrl == url
    && (if url == "" || HasUrl(base, url) then s.pool.table == base && s.memory.seedId == None
        else
          && s.pool.table != [] && s.pool.table[..|s.pool.table| - 1] == base
          && (var last := s.pool.table[|s.pool.table| - 1];
              last.url == url && last.name == SEED_NAME && last.enabled && s.memory.seedId == Some(last.id)))
  }

  lemma CreateAppends(s: State, name: string, url: string, now: int)
    requires InOrder(s) && Creatable(name, url)
    ensures var r := Apply(s.pool, Create(name, url, 1, now, NoFault));
            && r.table == s.pool.table + [NewRow(s.pool.nextId, name, url, 1, now)]
            && r.nextId == s.pool.nextId + 1 && Agrees(r)
  {
    hide ValidUrl, Ordered;
    StepKeepsSound(s.pool, Create(name, url, 1, now, NoFault));
  }

  lemma DeleteLast(base: seq<Proxy>, p: Proxy)
    requires Ordered(base + [p])
    ensures DeleteRows(base + [p], p.id) == base
  {
    forall q | q in base
      ensures q.id != p.id
    {
      var i :| 0 <= i < |base| && base[i] == q;
      assert (base + [p])[i].id < (base + [p])[|base|].id;
    }
    DeleteAfter(base, p);
  }

  lemma {:induction false} DeleteAfter(base: seq<Proxy>, p: Proxy)
    requires forall q :: q in base ==> q.id != p.id
    ensures DeleteRows(base + [p], p.id) == base
  {
    if base == [] {
      assert base + [p] == [p] && [p][1..] == [];
    } else {
      assert (base + [p])[1..] == base[1..] + [p];
      DeleteAfter(base[1..], p);
      assert [base[0]] + base[1..] == base;
    }
  }

  lemma DropReturnsToBase(s: State, base: seq<Proxy>, url: string)
    requires Follows(s, base, url)
    ensures Dropped(s).table == base && Agrees(Dropped(s)) && Dropped(s).nextId == s.pool.nextId
  {
    hide HasUrl, Ordered;
    if !(url == "" || HasUrl(base, url)) {
      var n := |s.pool.table| - 1;
      var last := s.pool.table[n];
      assert s.pool.table == base + [last] && last in s.pool.table;
      DeleteLast(base, last);
      StepKeepsSound(s.pool, Delete(last.id, NoFault));
      OnlyOneWithId(s.pool.table, last);
    }
  }

  lemma OnlyOneWithId(rows: seq<Proxy>, p: Proxy)
    requires Ordered(rows) && p in rows
    ensures FindId(rows, p.id) == Some(p)
  {
    hide FindId;
    var q := FindId(rows, p.id);
    var i :| 0 <= i < |rows| && rows[i] == p;
    assert q.Some?;
    var j :| 0 <= j < |rows| && rows[j] == q.value;
    if i < j { assert rows[i].id < rows[j].id; }
    if j < i { assert rows[j].id < rows[i].id; }
  }

  /** Where a series of parameters leads: the URL that is remembered, and whether its record was
      withdrawn by an invalid parameter after it. */
  datatype Course = Course(url: string, withdrawn: bool)

  function Steer(base: seq<Proxy>, c: Course, url: string): Course {
    if url == c.url then c
    else if url == "" || HasUrl(base, url) || ValidUrl(url) then Course(url, false)
    else Course(c.url, c.url != "" && !HasUrl(base, c.url))
  }

  ghost predicate Tracks(s: State, base: seq<Proxy>, c: Course) {
    if !c.withdrawn then Follows(s, base, c.url)
    else
      && InOrder(s) && s.memory.seedUrl == c.url && s.pool.table == base && Dropped(s) == s.pool
      && c.url != "" && !HasUrl(base, c.url)
  }

  /** The pool follows exactly the URL of a course whose record was not withdrawn. */
  lemma TracksMeans(s: State, base: seq<Proxy>, c: Course, url: string)
    requires Tracks(s, base, c)
    ensures InOrder(s) && (Follows(s, base, url) <==> c == Course(url, false))
  {
    hide HasUrl, Dropped, Agrees;
    if c.withdrawn && s.pool.table != [] {
      assert |s.pool.table[..|s.pool.table| - 1]| != |base|;
    }
  }

  lemma SyncTracks(s: State, base: seq<Proxy>, c: Course, param: string, now: int)
    requires Tracks(s, base, c)
    ensures Tracks(Synced(s, param, now), base, Steer(base, c, TrimSpace(param)))
  {
    hide HasUrl, ValidUrl, Ordered, Dropped, TrimSpace, Agrees;
    var url := TrimSpace(param);
    if url != c.url {
      if !c.withdrawn { DropReturnsToBase(s, base, c.url); }
      DropKeepsOrder(s);
      var pool := Dropped(s);
      AgreesMeans(pool);
      if url != "" && !HasUrl(base, url) && ValidUrl(url) {
        CreateAppends(State(pool, s.memory), SEED_NAME, url, now);
      } else if url != "" && !HasUrl(base, url) && (c.url == "" || HasUrl(base, c.url)) {
        NothingToDrop(s, base, c.url);
      }
    }
  }

  lemma NothingToDrop(s: State, base: seq<Proxy>, url: string)
    requires Follows(s, base, url) && (url == "" || HasUrl(base, url))
    ensures Dropped(s) == s.pool
  {
  }

  lemma AgreesMeans(s: Pool)
    requires Agrees(s)
    ensures s.cache == s.table
  {
  }

  lemma ReloadIsNothing(s: State)
    requires InOrder(s)
    ensures s.(pool := Apply(s.pool, Reload(NoFault))) == s
  {
  }

  datatype Boot = Boot(param: string, now: int)

  /** Starts with the given parameters, one after the other. */
  ghost function Starts(s: State, legacy: string, boots: seq<Boot>): State
    decreases |boots|
  {
    if boots == [] then s else Starts(Start(s, legacy, boots[0].param, boots[0].now), legacy, boots[1..])
  }

  function SteerAll(base: seq<Proxy>, c: Course, boots: seq<Boot>): Course
    decreases |boots|
  {
    if boots == [] then c else SteerAll(base, Steer(base, c, TrimSpace(boots[0].param)), boots[1..])
  }

  /** Nothing is left to migrate, or what is left is not a proxy URL and in no record. */
  ghost predicate Settled(s: State, legacy: string) {
    s.memory.legacyDone ||
    (var v := TrimSpace(legacy); v != "" && !ValidUrl(v) && !HasUrl(s.pool.cache, v))
  }

  lemma SettledStays(s: State, legacy: string, now: int)
    requires Settled(s, legacy)
    ensures Migrated(s, legacy, now) == s
  {
    hide HasUrl, ValidUrl, TrimSpace;
  }

  lemma MigrationSettles(s: State, legacy: string, now: int)
    requires InOrder(s)
    ensures Settled(Migrated(s, legacy, now), legacy) && InOrder(Migrated(s, legacy, now))
    ensures var r := Migrated(s, legacy, now);
            && (r.memory == s.memory || r.memory == s.memory.(legacyDone := true))
            && (r.pool.table == s.pool.table
                || (r.pool.table == s.pool.table + [NewRow(s.pool.nextId, LEGACY_NAME, TrimSpace(legacy), 1, now)]
                    && !s.memory.legacyDone && r.memory.legacyDone))
  {
    hide HasUrl, ValidUrl, TrimSpace, Ordered;
    var v := TrimSpace(legacy);
    if !s.memory.legacyDone && v != "" && !HasUrl(s.pool.cache, v) && ValidUrl(v) {
      CreateAppends(s, LEGACY_NAME, v, now);
    }
  }

  lemma {:induction false} StartsTrack(s: State, base: seq<Proxy>, c: Course, legacy: string, boots: seq<Boot>)
    requires Tracks(s, base, c) && Settled(s, legacy)
    ensures Tracks(Starts(s, legacy, boots), base, SteerAll(base, c, boots))
    decreases |boots|
  {
    hide HasUrl, ValidUrl, Synced, Migrated, TrimSpace, Follows, Tracks, Steer, Settled, InOrder;
    if boots != [] {
      var b := boots[0];
      TracksMeans(s, base, c, "");
      ReloadIsNothing(s);
      SettledStays(s, legacy, b.now);
      SyncTracks(s, base, c, b.param, b.now);
      SyncBringsOnlyUrls(s, legacy, b.param, b.now);
      StartsTrack(Start(s, legacy, b.param, b.now), base, Steer(base, c, TrimSpace(b.param)), legacy, boots[1..]);
    }
  }

  lemma SyncKeepsMigration(s: State, param: string, now: int)
    ensures Synced(s, param, now).memory.legacyDone == s.memory.legacyDone
  {
    hide HasUrl, ValidUrl, TrimSpace, Dropped, Apply;
  }

  /** From a database that remembers no parameter: after any starts and no edits, the pool is what
      it was, with the legacy value added at most once ever, and with one record for the last
      parameter unless the pool already had that URL. This fails exactly when the last parameter
      was refused, or was remembered while an invalid one withdrew its record. */
  lemma SeedingIsDeclarativeIff(s: State, legacy: string, boots: seq<Boot>)
    requires Sound(s.pool) && s.pool.nextId > 0
    requires s.memory.seedUrl == "" && s.memory.seedId == None && boots != []
    ensures var base := Migrated(s.(pool := s.pool.(cache := s.pool.table)), legacy, boots[0].now).pool.table;
            var last := TrimSpace(boots[|boots| - 1].param);
            && Tracks(Starts(s, legacy, boots), base, SteerAll(base, Course("", false), boots))
            && (Follows(Starts(s, legacy, boots), base, last)
                <==> SteerAll(base, Course("", false), boots) == Course(last, false))
            && (base == s.pool.table ||
                (base == s.pool.table + [NewRow(s.pool.nextId, LEGACY_NAME, TrimSpace(legacy), 1, boots[0].now)]
                 && !s.memory.legacyDone))
  {
    hide HasUrl, ValidUrl, Synced, Migrated, TrimSpace, Settled, Ordered, Steer, Dropped;
    var loaded := s.(pool := s.pool.(cache := s.pool.table));
    assert loaded == s.(pool := Apply(s.pool, Reload(NoFault)));
    var b := boots[0];
    MigrationSettles(loaded, legacy, b.now);
    var m := Migrated(loaded, legacy, b.now);
    var base, c := m.pool.table, Course("", false);
    assert Tracks(m, base, c);
    SyncTracks(m, base, c, b.param, b.now);
    SyncBringsOnlyUrls(m, legacy, b.param, b.now);
    StartsTrack(Start(s, legacy, b.param, b.now), base, Steer(base, c, TrimSpace(b.param)), legacy, boots[1..]);
    TracksMeans(Starts(s, legacy, boots), base, SteerAll(base, c, boots), TrimSpace(boots[|boots| - 1].param));
  }

  /** Parameters that are empty, valid, or in the pool already never lead astray. */
  lemma {:induction false} ValidParametersStayOnCourse(base: seq<Proxy>, c: Course, boots: seq<Boot>)
    requires !c.withdrawn
    requires forall b :: b in boots ==>
               var url := TrimSpace(b.param); url == "" || ValidUrl(url) || HasUrl(base, url)
    ensures SteerAll(base, c, boots)
         == Course(if boots == [] then c.url else TrimSpace(boots[|boots| - 1].param), false)
    decreases |boots|
  {
    hide HasUrl, ValidUrl, TrimSpace;
    if boots != [] {
      assert boots[0] in boots;
      ValidParametersStayOnCourse(base, Steer(base, c, TrimSpace(boots[0].param)), boots[1..]);
    }
  }

  /** An invalid parameter between two starts with the same valid one leads astray. */
  lemma InvalidParameterForgets(base: seq<Proxy>, good: Boot, bad: Boot)
    requires var url := TrimSpace(good.param); url != "" && ValidUrl(url) && !HasUrl(base, url)
    requires var url := TrimSpace(bad.param); url != "" && !ValidUrl(url) && !HasUrl(base, url)
    ensures SteerAll(base, Course("", false), [good, bad, good]) == Course(TrimSpace(good.param), true)
  {
    hide HasUrl, ValidUrl, TrimSpace;
    var c0, c1 := Course("", false), Course(TrimSpace(good.param), false);
    assert [good, bad, good][1..] == [bad, good] && [bad, good][1..] == [good];
    assert Steer(base, c0, TrimSpace(good.param)) == c1;
    assert SteerAll(base, c0, [good, bad, good]) == SteerAll(base, c1, [bad, good]);
    assert SteerAll(base, Course(c1.url, true), [good]) == Course(c1.url, true) by { assert [good][1..] == []; }
  }

  /** A record whose URL is not the remembered one, as after an edit, survives every start. */
  lemma EditedRecordStays(s: State, legacy: string, param: string, now: int, p: Proxy)
    requires Sound(s.pool) && s.pool.nextId > 0 && p in s.pool.table && p.url != s.memory.seedUrl
    ensures p in Start(s, legacy, param, now).pool.table
  {
    hide HasUrl, ValidUrl, TrimSpace, Ordered, Synced, Migrated;
    var loaded := s.(pool := s.pool.(cache := s.pool.table));
    assert loaded == s.(pool := Apply(s.pool, Reload(NoFault)));
    MigrationSettles(loaded, legacy, now);
    var m := Migrated(loaded, legacy, now);
    assert p in m.pool.table && m.memory.seedUrl == s.memory.seedUrl;
    SyncKeepsEdited(m, param, now, p);
  }

  lemma SyncKeepsEdited(s: State, param: string, now: int, p: Proxy)
    requires InOrder(s) && p in s.pool.table && p.url != s.memory.seedUrl
    ensures p in Synced(s, param, now).pool.table
  {
    hide HasUrl, ValidUrl, TrimSpace;
    assert p in Dropped(s).table by {
      if s.memory.seedId.Some? && s.memory.seedId.value == p.id { OnlyOneWithId(s.pool.table, p); }
    }
  }

  /** Starting twice with the same parameter is starting once, for any parameter. */
  lemma StartTwice(s: State, legacy: string, param: string, now: int)
    requires Sound(s.pool) && s.pool.nextId > 0
    ensures var once := Start(s, legacy, param, now); Start(once, legacy, param, now) == once
  {
    hide HasUrl, ValidUrl, TrimSpace, Ordered, Synced, Migrated, Settled;
    var loaded := s.(pool := s.pool.(cache := s.pool.table));
    assert loaded == s.(pool := Apply(s.pool, Reload(NoFault)));
    MigrationSettles(loaded, legacy, now);
    var m := Migrated(loaded, legacy, now);
    var once := Synced(m, param, now);
    SyncTwice(m, param, now);
    SyncBringsOnlyUrls(m, legacy, param, now);
    ReloadIsNothing(once);
    SettledStays(once, legacy, now);
  }

  lemma SyncTwice(s: State, param: string, now: int)
    requires InOrder(s)
    ensures var once := Synced(s, param, now); InOrder(once) && Synced(once, param, now) == once
  {
    hide HasUrl, ValidUrl, TrimSpace, Ordered;
    var url := TrimSpace(param);
    DropKeepsOrder(s);
    if url != s.memory.seedUrl && url != "" && !HasUrl(Dropped(s).cache, url) && ValidUrl(url) {
      CreateAppends(State(Dropped(s), s.memory), SEED_NAME, url, now);
    }
  }

  lemma DropKeepsOrder(s: State)
    requires InOrder(s)
    ensures InOrder(State(Dropped(s), s.memory)) && Dropped(State(Dropped(s), s.memory)) == Dropped(s)
    ensures forall p :: p in Dropped(s).table ==> p in s.pool.table
  {
    hide Ordered;
    if s.memory.seedId.Some? {
      StepKeepsSound(s.pool, Delete(s.memory.seedId.value, NoFault));
    }
  }

  lemma SyncBringsOnlyUrls(s: State, legacy: string, param: string, now: int)
    requires InOrder(s) && Settled(s, legacy)
    ensures Settled(Synced(s, param, now), legacy)
  {
    hide ValidUrl, TrimSpace, Ordered, Dropped;
    var v, url := TrimSpace(legacy), TrimSpace(param);
    DropKeepsOrder(s);
    SyncKeepsMigration(s, param, now);
    if url != s.memory.seedUrl && url != "" && !HasUrl(Dropped(s).cache, url) && ValidUrl(url) {
      CreateAppends(State(Dropped(s), s.memory), SEED_NAME, url, now);
    }
  }
}
