/** Choosing an egress: sticky preference, round robin over usable proxies, or the direct slot. */
module Egress {
  import opened Text
  import opened Slots
  import opened Limiters
  import opened Proxies

  type Room = int -> bool

  // ---------- The choice ----------

  function UsablePool(cache: seq<Proxy>, now: int, cooldownMin: int): (pool: seq<Proxy>)
    ensures forall p :: p in pool <==> p in cache && Usable(p, now, cooldownMin)
  {
    if cache == [] then []
    else (if Usable(cache[0], now, cooldownMin) then [cache[0]] else []) + UsablePool(cache[1..], now, cooldownMin)
  }

  lemma {:induction false} UsablePoolSnoc(cache: seq<Proxy>, p: Proxy, now: int, cooldownMin: int)
    ensures UsablePool(cache + [p], now, cooldownMin)
         == UsablePool(cache, now, cooldownMin) + if Usable(p, now, cooldownMin) then [p] else []
  {
    if cache != [] {
      assert (cache + [p])[1..] == cache[1..] + [p];
      UsablePoolSnoc(cache[1..], p, now, cooldownMin);
    } else {
      assert cache + [p] == [p] && [p][1..] == [];
    }
  }

  /** Position `i` of the round that begins at `start`. */
  function Turn(n: int, start: nat, i: nat): (r: nat)
    requires n > 0
    ensures r < n
  {
    (start + i) % n
  }

  /** The first proxy with room from position `start + i` on, going round once. */
  function RotateFrom(pool: seq<Proxy>, start: nat, i: nat, room: Room): Option<Proxy>
    requires i <= |pool|
    decreases |pool| - i
  {
    if i == |pool| then None
    else
      var p := pool[Turn(|pool|, start, i)];
      if room(p.id) then Some(p) else RotateFrom(pool, start, i + 1, room)
  }

  datatype Choice = Choice(picked: Option<Proxy>, cursor: nat)

  function Choose(pool: seq<Proxy>, cursor: nat, prefer: int, room: Room): Choice {
    if pool == [] then Choice(None, cursor)
    else
      var favourite := FindId(pool, prefer);
      if prefer > 0 && favourite.Some? && room(prefer) then Choice(favourite, cursor)
      else Choice(RotateFrom(pool, cursor, 0, room), cursor + 1)
  }

  ghost predicate FirstWithRoom(pool: seq<Proxy>, start: nat, i: nat, j: nat, room: Room, p: Proxy)
    requires i <= j < |pool|
  {
    && p == pool[Turn(|pool|, start, j)] && room(p.id)
    && forall k :: i <= k < j ==> !room(pool[Turn(|pool|, start, k)].id)
  }

  lemma {:induction false} RotateFromSound(pool: seq<Proxy>, start: nat, i: nat, room: Room)
    requires i <= |pool| && pool != []
    ensures var r := RotateFrom(pool, start, i, room);
            && (r.Some? ==> exists j :: i <= j < |pool| && FirstWithRoom(pool, start, i, j, room, r.value))
            && (r.None? ==> forall k :: i <= k < |pool| ==> !room(pool[Turn(|pool|, start, k)].id))
    decreases |pool| - i
  {
    hide Turn;
    if i < |pool| {
      var p := pool[Turn(|pool|, start, i)];
      if room(p.id) {
        assert FirstWithRoom(pool, start, i, i, room, p);
      } else {
        RotateFromSound(pool, start, i + 1, room);
        var r := RotateFrom(pool, start, i, room);
        if r.Some? {
          var j :| i + 1 <= j < |pool| && FirstWithRoom(pool, start, i + 1, j, room, r.value);
          assert FirstWithRoom(pool, start, i, j, room, r.value);
        }
      }
    }
  }

  lemma {:induction false} MulAtLeast(n: int, k: int)
    requires n > 0 && k >= 1
    ensures n * k >= n
    decreases k
  {
    if k > 1 {
      MulAtLeast(n, k - 1);
      assert n * k == n * (k - 1) + n;
    }
  }

  lemma ModIs(x: int, n: int, q: int, r: int)
    requires 0 <= r < n && x == n * q + r
    ensures x % n == r
  {
    var q', r' := x / n, x % n;
    assert x == n * q' + r';
    assert n * q' - n * q == n * (q' - q);
    assert n * q - n * q' == n * (q - q');
    if q' > q { MulAtLeast(n, q' - q); }
    if q' < q { MulAtLeast(n, q - q'); }
  }

  lemma TurnIs(n: int, start: nat, i: nat)
    requires i < n
    ensures var d := start % n; Turn(n, start, i) == if d + i < n then d + i else d + i - n
  {
    var q, d := start / n, start % n;
    if d + i < n {
      ModIs(start + i, n, q, d + i);
    } else {
      assert n * (q + 1) == n * q + n;
      ModIs(start + i, n, q + 1, d + i - n);
    }
  }

  /** Every position is reached exactly once when going round. */
  lemma RoundOnce(n: int, start: nat, r: nat) returns (k: nat)
    requires r < n
    ensures k < n && Turn(n, start, k) == r
    ensures forall j :: 0 <= j < n && Turn(n, start, j) == r ==> j == k
  {
    hide Turn;
    var d := start % n;
    k := if r >= d then r - d else r - d + n;
    TurnIs(n, start, k);
    forall j | 0 <= j < n && Turn(n, start, j) == r
      ensures j == k
    {
      TurnIs(n, start, j);
    }
  }

  /** The choice is sound and complete: what is picked is in the pool and has room; nothing is
      picked only when nothing in the pool has room; a preferred proxy with room always wins
      and leaves the cursor alone. */
  lemma ChoiceIsSoundAndComplete(pool: seq<Proxy>, cursor: nat, prefer: int, room: Room)
    ensures var c := Choose(pool, cursor, prefer, room);
            && (c.picked.Some? ==> c.picked.value in pool && room(c.picked.value.id))
            && (c.picked.None? <==> forall p :: p in pool ==> !room(p.id))
            && (c.cursor != cursor && c.picked.Some? ==>
                  exists j :: 0 <= j < |pool| && FirstWithRoom(pool, cursor, 0, j, room, c.picked.value))
            && (prefer > 0 && (exists p :: p in pool && p.id == prefer) && room(prefer) ==>
                  c.picked.Some? && c.picked.value.id == prefer && c.cursor == cursor)
  {
    hide Turn, RotateFrom;
    if pool != [] {
      RotateFromSound(pool, cursor, 0, room);
      var c := Choose(pool, cursor, prefer, room);
      if c.picked.None? {
        forall p | p in pool
          ensures !room(p.id)
        {
          var i :| 0 <= i < |pool| && pool[i] == p;
          var k := RoundOnce(|pool|, cursor, i);
          assert !room(pool[Turn(|pool|, cursor, k)].id);
        }
      }
    }
  }

  // ---------- Fairness ----------

  /** Successive choices without a preference, with the room there is at each of them. */
  function PickRun(pool: seq<Proxy>, cursor: nat, rooms: seq<Room>): seq<Option<Proxy>>
    decreases |rooms|
  {
    if rooms == [] then []
    else
      var c := Choose(pool, cursor, 0, rooms[0]);
      [c.picked] + PickRun(pool, c.cursor, rooms[1..])
  }

  ghost predicate AllFree(pool: seq<Proxy>, rooms: seq<Room>) {
    forall i, p :: 0 <= i < |rooms| && p in pool ==> rooms[i](p.id)
  }

  lemma {:induction false} PickAt(pool: seq<Proxy>, cursor: nat, rooms: seq<Room>)
    requires pool != [] && AllFree(pool, rooms)
    ensures |PickRun(pool, cursor, rooms)| == |rooms|
    ensures forall i :: 0 <= i < |rooms| ==> PickRun(pool, cursor, rooms)[i] == Some(pool[Turn(|pool|, cursor, i)])
    decreases |rooms|
  {
    if rooms != [] {
      assert rooms[0](pool[Turn(|pool|, cursor, 0)].id);
      PickAt(pool, cursor + 1, rooms[1..]);
      forall i | 0 < i < |rooms|
        ensures PickRun(pool, cursor, rooms)[i] == Some(pool[Turn(|pool|, cursor, i)])
      {
        assert PickRun(pool, cursor, rooms)[i] == PickRun(pool, cursor + 1, rooms[1..])[i - 1];
        assert (cursor + 1) + (i - 1) == cursor + i;
      }
    }
  }

  lemma {:induction false} PickRunSplit(pool: seq<Proxy>, cursor: nat, rooms: seq<Room>, n: nat)
    requires pool != [] && n <= |rooms|
    ensures PickRun(pool, cursor, rooms) == PickRun(pool, cursor, rooms[..n]) + PickRun(pool, cursor + n, rooms[n..])
    decreases n
  {
    hide RotateFrom;
    if n > 0 {
      PickRunSplit(pool, cursor + 1, rooms[1..], n - 1);
      assert rooms[1..][..n - 1] == rooms[..n][1..] && rooms[1..][n - 1..] == rooms[n..];
    }
  }

  lemma OnceInSeq<T>(s: seq<T>, i: nat)
    requires i < |s| && forall j :: 0 <= j < |s| && j != i ==> s[j] != s[i]
    ensures multiset(s)[s[i]] == 1
  {
    assert s == s[..i] + [s[i]] + s[i + 1..];
    assert s[i] !in s[..i] && s[i] !in s[i + 1..];
  }

  lemma OneRound(pool: seq<Proxy>, cursor: nat, rooms: seq<Room>, r: nat)
    requires AllFree(pool, rooms) && |rooms| == |pool| && r < |pool|
    requires forall i, j :: 0 <= i < j < |pool| ==> pool[i] != pool[j]
    ensures multiset(PickRun(pool, cursor, rooms))[Some(pool[r])] == 1
  {
    hide PickRun, Turn;
    PickAt(pool, cursor, rooms);
    var k := RoundOnce(|pool|, cursor, r);
    var s := PickRun(pool, cursor, rooms);
    forall j | 0 <= j < |s| && j != k
      ensures s[j] != s[k]
    {
      assert Turn(|pool|, cursor, j) != r;
    }
    OnceInSeq(s, k);
  }

  /** While the usable pool stays the same and has room, any k rounds choose each proxy k times. */
  lemma {:induction false} RoundRobinIsFair(pool: seq<Proxy>, cursor: nat, rooms: seq<Room>, k: nat, r: nat)
    requires AllFree(pool, rooms) && |rooms| == k * |pool| && r < |pool|
    requires forall i, j :: 0 <= i < j < |pool| ==> pool[i] != pool[j]
    ensures multiset(PickRun(pool, cursor, rooms))[Some(pool[r])] == k
    decreases k
  {
    hide PickRun;
    var n := |pool|;
    if k == 0 {
      PickAt(pool, cursor, rooms);
      assert PickRun(pool, cursor, rooms) == [];
    } else {
      assert k * n == n + (k - 1) * n;
      assert (k - 1) * n >= 0;
      PickRunSplit(pool, cursor, rooms, n);
      OneRound(pool, cursor, rooms[..n], r);
      RoundRobinIsFair(pool, cursor + n, rooms[n..], k - 1, r);
    }
  }

  // ---------- Slots while choosing ----------

  /** Whether a slot would be granted at `now`. */
  function HasRoom(view: map<int, Slot>, now: int, limits: Limits): Room {
    id => Verdicts(SlotOf(view, id), now, limits) == Granted
  }

  /** At `now` the two views differ by one grant to `winner`, if there is one, and in nothing else
      but times that have left their windows. */
  ghost predicate Differ(before: map<int, Slot>, after: map<int, Slot>, winner: Option<int>, now: int) {
    forall id :: Refresh(SlotOf(after, id), now) ==
      if winner == Some(id) then Grant(Refresh(SlotOf(before, id), now), now) else Refresh(SlotOf(before, id), now)
  }

  lemma RefreshOfGrant(s: Slot, now: int)
    ensures Refresh(Grant(Refresh(s, now), now), now) == Grant(Refresh(s, now), now)
  {
    hide Prune;
    var r := Refresh(s, now);
    RefreshTwice(s, now);
    PruneSnoc(r.minuteWin, now, now - MINUTE);
    PruneSnoc(r.hourWin, now, now - HOUR);
  }

  /** One probe after any number of refused ones. */
  lemma Probe(before: map<int, Slot>, view: map<int, Slot>, id: int, now: int, limits: Limits)
    requires Differ(before, view, None, now)
    ensures var granted := Verdicts(SlotOf(view, id), now, limits) == Granted;
            && granted == HasRoom(before, now, limits)(id)
            && Differ(before, view[id := Try(SlotOf(view, id), now, limits)], if granted then Some(id) else None, now)
  {
    hide Refresh, Grant, Judge;
    RefreshTwice(SlotOf(view, id), now);
    RefreshOfGrant(SlotOf(view, id), now);
    assert Refresh(SlotOf(view, id), now) == Refresh(SlotOf(before, id), now);
    var after := view[id := Try(SlotOf(view, id), now, limits)];
    forall i | i != id
      ensures SlotOf(after, i) == SlotOf(view, i)
    {
    }
  }

  /** In-flight counts change by exactly the grant. */
  lemma InflightChanges(before: map<int, Slot>, after: map<int, Slot>, winner: Option<int>, now: int, id: int)
    requires Differ(before, after, winner, now)
    ensures SlotOf(after, id).inflight == SlotOf(before, id).inflight + if winner == Some(id) then 1 else 0
  {
    assert Refresh(SlotOf(after, id), now).inflight == SlotOf(after, id).inflight;
  }

  datatype Outcome = Via(proxy: Proxy) | Direct | Refused(reason: Verdict, slot: int) {
    /** The slot that the caller must release, if it got one. */
    function Slot(): Option<int> {
      match this
      case Via(p) => Some(p.id)
      case Direct => Some(0)
      case Refused(_, _) => None
    }
  }

  /** What acquireSlot returns, and where it leaves the cursor. */
  ghost predicate Acquired(cache: seq<Proxy>, view: map<int, Slot>, limits: Limits, cooldownMin: int,
                           fallbackDirect: bool, start: nat, next: nat, prefer: int, now: int, r: Outcome) {
    var room := HasRoom(view, now, limits);
    var choice := Choose(UsablePool(cache, now, cooldownMin), start, prefer, room);
    var mayGoDirect := cache == [] || fallbackDirect;
    && next == choice.cursor
    && (r.Via? <==> choice.picked.Some?) && (r.Via? ==> choice.picked == Some(r.proxy))
    && (r.Direct? <==> choice.picked.None? && mayGoDirect && room(0))
    && (r.Refused? ==> if mayGoDirect then r.slot == 0 && r.reason == Verdicts(SlotOf(view, 0), now, limits)
                       else r.slot == -1 && r.reason == Rph)
  }

  /** Success is one more in flight on exactly one slot, that of a usable proxy of the pool or the
      direct one; failure changes no count and means that every usable proxy was full; a proxy is
      used whenever one has room; the direct slot is used only with an empty pool or by option. */
  lemma AcquireIsSoundAndComplete(cache: seq<Proxy>, before: map<int, Slot>, after: map<int, Slot>, limits: Limits,
                                  cooldownMin: int, fallbackDirect: bool, start: nat, next: nat,
                                  prefer: int, now: int, r: Outcome)
    requires Acquired(cache, before, limits, cooldownMin, fallbackDirect, start, next, prefer, now, r)
    requires Differ(before, after, r.Slot(), now)
    ensures r.Via? <==> exists p :: p in cache && Usable(p, now, cooldownMin) && HasRoom(before, now, limits)(p.id)
    ensures r.Via? ==> r.proxy in cache && Usable(r.proxy, now, cooldownMin) && HasRoom(before, now, limits)(r.proxy.id)
    ensures r.Direct? ==> cache == [] || fallbackDirect
    ensures r.Refused? && (cache == [] || fallbackDirect) ==> !HasRoom(before, now, limits)(0)
    ensures forall id :: SlotOf(after, id).inflight
                      == SlotOf(before, id).inflight + if r.Slot() == Some(id) then 1 else 0
    ensures r.Via? && next == start ==> prefer > 0 && r.proxy.id == prefer
    ensures prefer > 0 && HasRoom(before, now, limits)(prefer)
         && (exists p :: p in cache && p.id == prefer && Usable(p, now, cooldownMin))
        ==> r.Via? && r.proxy.id == prefer && next == start
  {
    hide Choose, Differ, HasRoom, Usable;
    var room := HasRoom(before, now, limits);
    var pool := UsablePool(cache, now, cooldownMin);
    ChoiceIsSoundAndComplete(pool, start, prefer, room);
    CursorStaysOnlyFor(pool, start, prefer, room);
    forall id
      ensures SlotOf(after, id).inflight == SlotOf(before, id).inflight + if r.Slot() == Some(id) then 1 else 0
    {
      InflightChanges(before, after, r.Slot(), now, id);
    }
    if prefer > 0 && exists p :: p in cache && p.id == prefer && Usable(p, now, cooldownMin) {
      var p :| p in cache && p.id == prefer && Usable(p, now, cooldownMin);
      assert p in pool;
    }
  }

  lemma CursorStaysOnlyFor(pool: seq<Proxy>, cursor: nat, prefer: int, room: Room)
    ensures var c := Choose(pool, cursor, prefer, room);
            c.picked.Some? && c.cursor == cursor ==> prefer > 0 && c.picked.value.id == prefer
  {
  }

  class Scheduler {
    const store: ProxyStore
    const limiter: Limiter
    const cooldownMin: int
    const fallbackDirect: bool
    var cursor: nat

    constructor (store: ProxyStore, limiter: Limiter, cooldownMin: int, fallbackDirect: bool)
      ensures this.store == store && this.limiter == limiter && cursor == 0
      ensures this.cooldownMin == cooldownMin && this.fallbackDirect == fallbackDirect
    {
      this.store, this.limiter := store, limiter;
      this.cooldownMin, this.fallbackDirect := cooldownMin, fallbackDirect;
      cursor := 0;
    }

    ghost function RoomNow(now: int): Room
      reads limiter, limiter.slots.Values
    {
      HasRoom(limiter.View(), now, limiter.limits)
    }

    method UsableProxies(now: int) returns (pool: seq<Proxy>)
      ensures pool == UsablePool(store.cache, now, cooldownMin)
    {
      pool := [];
      for i := 0 to |store.cache|
        invariant pool == UsablePool(store.cache[..i], now, cooldownMin)
      {
        UsablePoolSnoc(store.cache[..i], store.cache[i], now, cooldownMin);
        assert store.cache[..i + 1] == store.cache[..i] + [store.cache[i]];
        if Usable(store.cache[i], now, cooldownMin) {
          pool := pool + [store.cache[i]];
        }
      }
      assert store.cache[..|store.cache|] == store.cache;
    }

    /** One attempt to get a slot, after any number of refused ones. */
    method TrySlot(id: int, now: int, ghost before: map<int, Slot>) returns (verdict: Verdict)
      requires limiter.Valid() && Differ(before, limiter.View(), None, now)
      modifies limiter, limiter.slots.Values
      ensures limiter.Valid() && fresh(limiter.slots.Values - old(limiter.slots.Values))
      ensures verdict == Verdicts(SlotOf(before, id), now, limiter.limits)
      ensures verdict == Granted <==> HasRoom(before, now, limiter.limits)(id)
      ensures Differ(before, limiter.View(), if verdict == Granted then Some(id) else None, now)
    {
      hide Differ, HasRoom, Verdicts, Try;
      Probe(before, limiter.View(), id, now, limiter.limits);
      SameVerdict(before, limiter.View(), id, now, limiter.limits);
      verdict := limiter.TrySlotAcquire(id, now);
    }

    /** Goes once round the pool from `start` and takes the first slot that is granted. */
    method Rotate(pool: seq<Proxy>, start: nat, now: int, ghost before: map<int, Slot>) returns (r: Option<Proxy>)
      requires limiter.Valid() && Differ(before, limiter.View(), None, now)
      modifies limiter, limiter.slots.Values
      ensures limiter.Valid() && fresh(limiter.slots.Values - old(limiter.slots.Values))
      ensures r == RotateFrom(pool, start, 0, HasRoom(before, now, limiter.limits))
      ensures Differ(before, limiter.View(), if r.Some? then Some(r.value.id) else None, now)
    {
      hide Differ, HasRoom, Verdicts, Limiter.View, Limiter.Valid;
      ghost var room := HasRoom(before, now, limiter.limits);
      for i := 0 to |pool|
        invariant limiter.Valid() && fresh(limiter.slots.Values - old(limiter.slots.Values))
        invariant Differ(before, limiter.View(), None, now)
        invariant RotateFrom(pool, start, 0, room) == RotateFrom(pool, start, i, room)
      {
        var p := pool[Turn(|pool|, start, i)];
        var verdict := TrySlot(p.id, now, before);
        if verdict == Granted {
          return Some(p);
        }
      }
      r := None;
    }

    method PickProxyPreferring(prefer: int, now: int) returns (picked: Option<Proxy>)
      requires limiter.Valid()
      modifies this`cursor, limiter, limiter.slots.Values
      ensures limiter.Valid() && fresh(limiter.slots.Values - old(limiter.slots.Values))
      ensures Choice(picked, cursor)
           == Choose(UsablePool(store.cache, now, cooldownMin), old(cursor), prefer, old(RoomNow(now)))
      ensures Differ(old(limiter.View()), limiter.View(), if picked.Some? then Some(picked.value.id) else None, now)
    {
      hide Differ, Verdicts, RotateFrom, Limiter.View, Limiter.Valid, Usable, UsablePool, FindId;
      ghost var before := limiter.View();
      NoProbeYet(before, now);
      if store.cache == [] {
        NothingToChoose(store.cache, cursor, prefer, now, cooldownMin, RoomNow(now));
        return None;
      }
      var pool := UsableProxies(now);
      if pool == [] {
        return None;
      }
      if prefer > 0 {
        var favourite := FindId(pool, prefer);
        if favourite.Some? {
          var verdict := TrySlot(prefer, now, before);
          if verdict == Granted {
            return favourite;
          }
        }
      }
      var start := cursor;
      cursor := cursor + 1;
      picked := Rotate(pool, start, now, before);
    }

    method AcquireSlot(prefer: int, now: int) returns (r: Outcome)
      requires limiter.Valid()
      modifies this`cursor, limiter, limiter.slots.Values
      ensures limiter.Valid() && fresh(limiter.slots.Values - old(limiter.slots.Values))
      ensures Acquired(store.cache, old(limiter.View()), limiter.limits, cooldownMin, fallbackDirect,
                       old(cursor), cursor, prefer, now, r)
      ensures Differ(old(limiter.View()), limiter.View(), r.Slot(), now)
    {
      hide Differ, Choose, Verdicts, Limiter.View, Limiter.Valid;
      ghost var before := limiter.View();
      NoProbeYet(before, now);
      if store.cache == [] {
        NothingToChoose([], cursor, prefer, now, cooldownMin, RoomNow(now));
      }
      if store.cache != [] {
        var picked := PickProxyPreferring(prefer, now);
        if picked.Some? {
          return Via(picked.value);
        }
        if !fallbackDirect {
          return Refused(Rph, -1);
        }
      }
      var verdict := TrySlot(0, now, before);
      if verdict == Granted {
        return Direct;
      }
      return Refused(verdict, 0);
    }
  }

  lemma NoProbeYet(view: map<int, Slot>, now: int)
    ensures Differ(view, view, None, now)
  {
  }

  lemma NothingToChoose(cache: seq<Proxy>, cursor: nat, prefer: int, now: int, cooldownMin: int, room: Room)
    requires cache == []
    ensures Choose(UsablePool(cache, now, cooldownMin), cursor, prefer, room) == Choice(None, cursor)
  {
  }

  lemma SameVerdict(before: map<int, Slot>, view: map<int, Slot>, id: int, now: int, limits: Limits)
    requires Differ(before, view, None, now)
    ensures Verdicts(SlotOf(view, id), now, limits) == Verdicts(SlotOf(before, id), now, limits)
  {
    assert Refresh(SlotOf(view, id), now) == Refresh(SlotOf(before, id), now);
  }

  // ---------- Slots of all requests together ----------

  /** Slots, and for each of them how many running requests hold it. */
  datatype Traffic = Traffic(view: map<int, Slot>, held: multiset<int>)

  /** What requests do to slots, one mutex section at a time and in any order. */
  datatype Act = Ask(id: int, now: int) | Free(id: int) | Look(id: int, now: int)

  function Do(s: Traffic, act: Act, limits: Limits): Traffic {
    match act
    case Ask(id, now) =>
      var granted := Verdicts(SlotOf(s.view, id), now, limits) == Granted;
      Traffic(s.view[id := Try(SlotOf(s.view, id), now, limits)],
              if granted then s.held + multiset{id} else s.held)
    case Free(id) =>
      Traffic(s.view[id := Release(SlotOf(s.view, id))], s.held - multiset{id})
    case Look(id, now) =>
      s.(view := s.view[id := Refresh(SlotOf(s.view, id), now)])
  }

  /** Every release is by a request that holds the slot. */
  ghost predicate Paired(s: Traffic, acts: seq<Act>, limits: Limits)
    decreases |acts|
  {
    acts == [] || ((acts[0].Free? ==> acts[0].id in s.held) && Paired(Do(s, acts[0], limits), acts[1..], limits))
  }

  function DoAll(s: Traffic, acts: seq<Act>, limits: Limits): Traffic
    decreases |acts|
  {
    if acts == [] then s else DoAll(Do(s, acts[0], limits), acts[1..], limits)
  }

  ghost predicate Counted(s: Traffic, limits: Limits) {
    forall id :: SlotOf(s.view, id).inflight == s.held[id]
              && (limits.concurrent > 0 ==> s.held[id] <= limits.concurrent)
  }

  lemma ActKeepsCounted(s: Traffic, act: Act, limits: Limits)
    requires Counted(s, limits) && (act.Free? ==> act.id in s.held)
    ensures Counted(Do(s, act, limits), limits)
  {
    hide Prune;
    var r := Do(s, act, limits);
    forall id
      ensures SlotOf(r.view, id).inflight == r.held[id]
           && (limits.concurrent > 0 ==> r.held[id] <= limits.concurrent)
    {
      assert SlotOf(s.view, id).inflight == s.held[id];
      if id != act.id { assert SlotOf(r.view, id) == SlotOf(s.view, id); }
    }
  }

  /** Over all interleavings, what is in flight on a slot is what running requests hold of it, and
      never more than the limit; when no request runs, nothing is in flight anywhere. */
  lemma {:induction false} SlotsAreConserved(s: Traffic, acts: seq<Act>, limits: Limits)
    requires Counted(s, limits) && Paired(s, acts, limits)
    ensures var r := DoAll(s, acts, limits);
            && Counted(r, limits)
            && (r.held == multiset{} ==> forall id :: SlotOf(r.view, id).inflight == 0)
    decreases |acts|
  {
    hide Do;
    if acts != [] {
      ActKeepsCounted(s, acts[0], limits);
      SlotsAreConserved(Do(s, acts[0], limits), acts[1..], limits);
    }
  }

  const IDLE := Traffic(map[], multiset{})

  lemma IdleIsCounted(limits: Limits)
    ensures Counted(IDLE, limits)
  {
  }

  /** From the start of the service on: each slot has in flight what running requests hold of it,
      and when the last of them has finished all slots are free again. */
  lemma SlotsComeBack(acts: seq<Act>, limits: Limits, id: int)
    requires Paired(IDLE, acts, limits)
    ensures var r := DoAll(IDLE, acts, limits);
            && SlotOf(r.view, id).inflight == r.held[id]
            && (limits.concurrent > 0 ==> SlotOf(r.view, id).inflight <= limits.concurrent)
            && (r.held == multiset{} ==> SlotOf(r.view, id).inflight == 0)
  {
    hide DoAll, Paired;
    IdleIsCounted(limits);
    SlotsAreConserved(IDLE, acts, limits);
  }

  // ---------- Every slot of every run ----------

  /** The events of one slot among what all requests do. */
  function EventsOf(acts: seq<Act>, id: int): seq<Event> {
    if acts == [] then []
    else
      (if acts[0].id != id then []
       else match acts[0]
         case Ask(_, now) => [Attempt(now)]
         case Free(_) => [Done]
         case Look(_, now) => [Usage(now)]) + EventsOf(acts[1..], id)
  }

  ghost predicate OneClock(acts: seq<Act>, from: int) {
    acts == [] || if acts[0].Free? then OneClock(acts[1..], from)
                  else from <= acts[0].now && OneClock(acts[1..], acts[0].now)
  }

  function LastClock(acts: seq<Act>, from: int): int {
    if acts == [] then from else LastClock(acts[1..], if acts[0].Free? then from else acts[0].now)
  }

  lemma {:induction false} SlotRun(s: Traffic, acts: seq<Act>, id: int, r: Trace, from: int, limits: Limits)
    requires SlotOf(s.view, id) == r.slot && OneClock(acts, from) && r.clock <= from
    ensures SlotOf(DoAll(s, acts, limits).view, id) == Slots.Run(r, EventsOf(acts, id), limits).slot
    ensures InClockOrder(r, EventsOf(acts, id), limits)
    ensures Slots.Run(r, EventsOf(acts, id), limits).clock <= LastClock(acts, from)
    decreases |acts|
  {
    hide Try, Refresh, Release, Verdicts;
    if acts != [] {
      var act, rest := acts[0], EventsOf(acts[1..], id);
      var now := if act.Free? then from else act.now;
      if act.id == id {
        var e := EventsOf(acts, id)[0];
        assert EventsOf(acts, id) == [e] + rest;
        SlotRun(Do(s, act, limits), acts[1..], id, Step(r, e, limits), now, limits);
      } else {
        assert EventsOf(acts, id) == rest;
        SlotRun(Do(s, act, limits), acts[1..], id, r, now, limits);
      }
    }
  }

  /** However requests interleave, on every slot at every instant: at most rpm grants in the minute
      and rph in the hour that end there, and the slot's count is grants minus releases. */
  lemma EverySlotIsSafe(acts: seq<Act>, id: int, start: int, limits: Limits, t: int)
    requires OneClock(acts, start)
    ensures var r := Slots.Run(FRESH.(clock := start), EventsOf(acts, id), limits);
            && SlotOf(DoAll(IDLE, acts, limits).view, id) == r.slot
            && (limits.rpm > 0 ==> CountIn(r.grants, t - 60, t) <= limits.rpm)
            && (limits.rph > 0 ==> CountIn(r.grants, t - 3600, t) <= limits.rph)
            && r.slot.inflight + r.releases == |r.grants|
  {
    hide DoAll, Slots.Run, CountIn, OneClock, InClockOrder, EventsOf;
    SlotRun(IDLE, acts, id, FRESH.(clock := start), start, limits);
    SlidingWindowSafety(start, EventsOf(acts, id), limits, t);
  }

  /** However requests interleave, the next attempt on a slot is granted if and only if no limit that is on
      is reached by that slot's own grants and releases, and a refusal names the first one that is. */
  lemma EverySlotAnswers(acts: seq<Act>, id: int, start: int, limits: Limits, now: int)
    requires OneClock(acts, start) && LastClock(acts, start) <= now
    ensures var r := Slots.Run(FRESH.(clock := start), EventsOf(acts, id), limits);
            && r.slot.inflight + r.releases == |r.grants|
            && Answers(Verdicts(SlotOf(DoAll(IDLE, acts, limits).view, id), now, limits),
                       Reached(limits.concurrent, |r.grants| - r.releases),
                       Reached(limits.rpm, CountIn(r.grants, now - 60, now)),
                       Reached(limits.rph, CountIn(r.grants, now - 3600, now)))
  {
    hide DoAll, Slots.Run, CountIn, OneClock, InClockOrder, EventsOf, LastClock, Verdicts, Reached, Answers;
    SlotRun(IDLE, acts, id, FRESH.(clock := start), start, limits);
    SlidingWindowSafety(start, EventsOf(acts, id), limits, now);
    GrantedIff(start, EventsOf(acts, id), limits, now);
  }

  // ---------- No silent fallback ----------

  /** After a load with a non-empty table, and while the table stays non-empty, no request gets the
      direct slot unless the option allows it, whatever reads of the table fail and whatever
      proxies are disabled, tripped or full. */
  lemma NeverFallsBackSilently(s: Pool, steps: seq<PoolStep>, view: map<int, Slot>, limits: Limits, cooldownMin: int,
                               start: nat, next: nat, prefer: int, now: int, r: Outcome)
    requires s.cache != [] && TableNeverEmpty(s, steps)
    requires Acquired(Proxies.Run(s, steps).cache, view, limits, cooldownMin, false, start, next, prefer, now, r)
    ensures !r.Direct?
  {
    hide Choose, HasRoom, UsablePool;
    CacheNeverEmpty(s, steps);
  }
}
