/** The table of slots, created on first use. Each operation is what runs under a slot's mutex. */
module Limiters {
  import opened Slots

  class IpSlot {
    var inflight: nat
    var minuteWin: seq<int>
    var hourWin: seq<int>

    constructor ()
      ensures State() == EMPTY
    {
      inflight, minuteWin, hourWin := 0, [], [];
    }

    function State(): Slot
      reads this
    {
      Slot(inflight, minuteWin, hourWin)
    }

    method Tidy(now: int)
      modifies this
      ensures State() == Refresh(old(State()), now)
    {
      hide Prune;
      minuteWin := PruneTimestamps(minuteWin, now - MINUTE);
      hourWin := PruneTimestamps(hourWin, now - HOUR);
    }

    method Acquire(now: int, limits: Limits) returns (verdict: Verdict)
      modifies this
      ensures verdict == Verdicts(old(State()), now, limits)
      ensures State() == Try(old(State()), now, limits)
    {
      hide Prune, Refresh;
      Tidy(now);
      if limits.concurrent > 0 && inflight >= limits.concurrent {
        return Concurrent;
      }
      if limits.rpm > 0 && |minuteWin| >= limits.rpm {
        return Rpm;
      }
      if limits.rph > 0 && |hourWin| >= limits.rph {
        return Rph;
      }
      inflight := inflight + 1;
      minuteWin := minuteWin + [now];
      hourWin := hourWin + [now];
      return Granted;
    }

    method Leave()
      modifies this
      ensures State() == Release(old(State()))
    {
      if inflight > 0 {
        inflight := inflight - 1;
      }
    }
  }

  /** The state of a slot that may not have been created yet. */
  function SlotOf(view: map<int, Slot>, id: int): Slot {
    if id in view then view[id] else EMPTY
  }

  class Limiter {
    const limits: Limits
    var slots: map<int, IpSlot>

    constructor (limits: Limits)
      ensures Valid() && View() == map[] && slots == map[] && this.limits == limits
    {
      this.limits := limits;
      slots := map[];
    }

    /** No two ids share a slot. */
    ghost predicate Valid()
      reads this
    {
      forall i, j :: i in slots && j in slots && i != j ==> slots[i] != slots[j]
    }

    ghost function View(): map<int, Slot>
      reads this, slots.Values
    {
      map i | i in slots :: slots[i].State()
    }

    method GetSlot(id: int) returns (s: IpSlot)
      requires Valid()
      modifies this
      ensures Valid() && id in slots && slots[id] == s
      ensures s.State() == SlotOf(old(View()), id)
      ensures View() == old(View())[id := s.State()]
      ensures fresh(slots.Values - old(slots.Values))
    {
      if id in slots {
        return slots[id];
      }
      s := new IpSlot();
      slots := slots[id := s];
    }

    /** Changing one slot changes the view at its id only. */
    twostate lemma OneSlotChanged(id: int)
      requires old(Valid()) && slots == old(slots) && id in slots
      requires forall s :: s in slots.Values && s != slots[id] ==> s.State() == old(s.State())
      ensures View() == old(View())[id := slots[id].State()]
    {
      forall i | i in slots && i != id
        ensures slots[i].State() == old(slots[i].State())
      {
        assert slots[i] in slots.Values;
      }
    }

    method TrySlotAcquire(id: int, now: int) returns (verdict: Verdict)
      requires Valid()
      modifies this, slots.Values
      ensures Valid() && fresh(slots.Values - old(slots.Values))
      ensures verdict == Verdicts(SlotOf(old(View()), id), now, limits)
      ensures View() == old(View())[id := Try(SlotOf(old(View()), id), now, limits)]
    {
      hide Try, Verdicts;
      var s := GetSlot(id);
      label got:
      verdict := s.Acquire(now, limits);
      OneSlotChanged@got(id);
    }

    method SlotRelease(id: int)
      requires Valid()
      modifies this, slots.Values
      ensures Valid() && fresh(slots.Values - old(slots.Values))
      ensures View() == old(View())[id := Release(SlotOf(old(View()), id))]
    {
      hide Release;
      var s := GetSlot(id);
      label got:
      s.Leave();
      OneSlotChanged@got(id);
    }

    method SlotUsage(id: int, now: int) returns (inflight: nat, rpm: nat, rph: nat)
      requires Valid()
      modifies this, slots.Values
      ensures Valid() && fresh(slots.Values - old(slots.Values))
      ensures View() == old(View())[id := Refresh(SlotOf(old(View()), id), now)]
      ensures var s := Refresh(SlotOf(old(View()), id), now);
              inflight == s.inflight && rpm == |s.minuteWin| && rph == |s.hourWin|
    {
      hide Refresh;
      var s := GetSlot(id);
      label got:
      s.Tidy(now);
      OneSlotChanged@got(id);
      assert s.State() == Slot(s.inflight, s.minuteWin, s.hourWin);
      return s.inflight, |s.minuteWin|, |s.hourWin|;
    }
  }
}
