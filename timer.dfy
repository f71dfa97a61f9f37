/** The timer facility: callbacks scheduled "expire" milliseconds ahead and fired
    by a tick that advances in 10 ms steps. Only the documented contract is
    modelled; the background thread becomes an explicit Tick, the handler
    threads become the list of dispatches a Tick returns, and a timer handle is
    the index of the timer's slot in the list arena. */
module Timer {
  import opened LinkList

  /** Granularity of the internal clock, in milliseconds. */
  const QUANTUM: nat := 10

  datatype Option<T> = None | Some(value: T)

  /** struct timer without its list linkage and lock: a reference count of
      outstanding handles, the absolute expiry time in ms, the cancelled flag,
      and the handler with its argument (both abstract ids). */
  datatype TimerRec = TimerRec(refcnt: int, expires: nat, cancelled: bool, handler: nat, arg: int)

  /** A handler invocation: the handler id and the argument it is called with. */
  datatype Dispatch = Dispatch(handler: nat, arg: int)

  /** The tick at which a timer added at time addedAt (a tick) with absolute
      expiry time expires is fired: the next tick once it has expired. */
  function FireTime(addedAt: nat, expires: nat): nat
  {
    if expires <= addedAt then addedAt + QUANTUM
    else ((expires + QUANTUM - 1) / QUANTUM) * QUANTUM
  }

  /** The fire time is the first tick after the add that is not before expiry:
      never earlier than expires, and no tick in between would have done. */
  lemma FireTimeIsFirstTick(addedAt: nat, expires: nat)
    requires addedAt % QUANTUM == 0
    ensures var r := FireTime(addedAt, expires);
      r % QUANTUM == 0 && r > addedAt && r >= expires &&
      forall t: nat :: t % QUANTUM == 0 && t > addedAt && t >= expires ==> t >= r
  {
    var r := FireTime(addedAt, expires);
    if expires > addedAt {
      var q := (expires + QUANTUM - 1) / QUANTUM;
      assert r == q * QUANTUM;
      assert q * QUANTUM >= expires;
      assert (q - 1) * QUANTUM < expires;
      forall t: nat | t % QUANTUM == 0 && t > addedAt && t >= expires ensures t >= r {
        var k := t / QUANTUM;
        assert t == k * QUANTUM;
      }
    }
  }

  /** A timer that had not expired at tick now (or was added at now) and has
      expired at now + QUANTUM fires exactly at its fire time. */
  lemma DueNowIsFireTime(addedAt: nat, expires: nat, now: nat)
    requires addedAt % QUANTUM == 0 && now % QUANTUM == 0 && addedAt <= now
    requires expires > now || addedAt == now
    requires expires <= now + QUANTUM
    ensures FireTime(addedAt, expires) == now + QUANTUM
  {
    FireTimeIsFirstTick(addedAt, expires);
    var r := FireTime(addedAt, expires);
    assert r <= now + QUANTUM;
    assert r > now;
  }

  /** Adding a 25 ms timer at time 0: it fires at 30 ms, not at 20 ms. */
  lemma TwentyFiveFiresAtThirty()
    ensures FireTime(0, 25) == 30
    ensures FireTime(0, 25) != 20
  {
  }

  /** The timers that fire at tick t: not cancelled and expired. */
  function Due(records: map<int, TimerRec>, t: nat): set<int>
  {
    set s | s in records && !records[s].cancelled && records[s].expires <= t
  }

  /** The timers released at tick t: no handle is held and they are cancelled
      or fire now, so nothing can refer to them any more. */
  function Doomed(records: map<int, TimerRec>, t: nat): set<int>
  {
    set s | s in records && records[s].refcnt == 0 && (records[s].cancelled || records[s].expires <= t)
  }

  /** The timers left after tick t: the doomed ones are gone, the ones that
      fired are marked cancelled so that they never fire again. */
  function Survivors(records: map<int, TimerRec>, t: nat): map<int, TimerRec>
  {
    map s | s in records && s !in Doomed(records, t) ::
      if s in Due(records, t) then records[s].(cancelled := true) else records[s]
  }

  /** The handler invocations for the timers at the slots in order. */
  function Calls(slots: seq<int>, records: map<int, TimerRec>): (r: seq<Dispatch>)
    requires forall k :: 0 <= k < |slots| ==> slots[k] in records
    ensures |r| == |slots|
    ensures forall k :: 0 <= k < |slots| ==>
      r[k] == Dispatch(records[slots[k]].handler, records[slots[k]].arg)
  {
    if slots == [] then []
    else Calls(slots[..|slots| - 1], records) + [Dispatch(records[slots[|slots| - 1]].handler, records[slots[|slots| - 1]].arg)]
  }

  /** The values that occur in s. */
  ghost function Members(s: seq<int>): set<int>
  {
    if s == [] then {} else Members(s[..|s| - 1]) + {s[|s| - 1]}
  }

  lemma {:induction false} MembersOf(s: seq<int>)
    ensures forall x :: x in Members(s) <==> x in s
  {
    if s != [] {
      var init := s[..|s| - 1];
      assert s == init + [s[|s| - 1]];
      MembersOf(init);
    }
  }

  /** The slot bookkeeping: the list holds exactly the timers in records, and
      the free slots are the other slots of the arena (HEAD excluded). */
  ghost predicate Slots(elems: seq<int>, records: map<int, TimerRec>, free: set<int>, cap: nat)
  {
    && records.Keys == Members(elems)
    && (forall s :: s in records ==> 0 < s < cap && records[s].refcnt in {0, 1})
    && (forall s :: s in free ==> 0 < s < cap && s !in records)
  }

  /** The clock is on a tick, and every registered timer was added at a tick
      no later than now; one that is not cancelled (it has not fired and nobody
      cancelled it) has not expired before now, unless it was added at now. */
  ghost predicate Pending(now: nat, records: map<int, TimerRec>, added: map<int, nat>)
  {
    && now % QUANTUM == 0
    && added.Keys == records.Keys
    && forall s :: s in records ==>
         && added[s] <= now && added[s] % QUANTUM == 0
         && (!records[s].cancelled ==> records[s].expires > now || added[s] == now)
  }

  /** Scheduling a new timer at a free slot keeps the slot bookkeeping and the
      pending-timer invariant. */
  lemma ScheduleOk(now: nat, elems: seq<int>, records: map<int, TimerRec>, free: set<int>, cap: nat,
                   added: map<int, nat>, s: int, rec: TimerRec)
    requires Slots(elems, records, free, cap) && Pending(now, records, added)
    requires s in free && rec.refcnt in {0, 1} && rec.expires >= now
    ensures Slots(elems + [s], records[s := rec], free - {s}, cap)
    ensures Pending(now, records[s := rec], added[s := now])
  {
    MembersOf(elems);
    assert (elems + [s])[..|elems|] == elems;
  }

  /** The timers that fire at tick now + QUANTUM fire at their fire time: the
      first tick after they were added that is not before their expiry. */
  lemma {:induction false} DueAtFireTime(now: nat, records: map<int, TimerRec>, added: map<int, nat>)
    requires Pending(now, records, added)
    ensures forall s :: s in Due(records, now + QUANTUM) ==>
      now + QUANTUM == FireTime(added[s], records[s].expires)
  {
    forall s | s in Due(records, now + QUANTUM)
      ensures now + QUANTUM == FireTime(added[s], records[s].expires)
    {
      DueNowIsFireTime(added[s], records[s].expires, now);
    }
  }

  /** After a tick no timer it fired can fire again, and no cancelled timer
      fires at any later tick. */
  lemma FiresOnce(records: map<int, TimerRec>, t: nat, later: nat)
    ensures var r := Survivors(records, t);
      forall s :: s in r && (s in Due(records, t) || records[s].cancelled) ==> s !in Due(r, later)
  {
  }

  /** After a tick every timer that nobody holds a handle to is still waiting
      to fire: timers are never left behind allocated but unreachable. */
  lemma NoOrphans(records: map<int, TimerRec>, t: nat)
    ensures var r := Survivors(records, t);
      forall s :: s in r && r[s].refcnt == 0 ==> !r[s].cancelled && r[s].expires > t
  {
  }

  /** A pass of the tick over the list keeps both invariants: the doomed timers
      leave the list and their slots become free, the due ones are marked
      cancelled, the others wait. */
  lemma TickOk(now: nat, elems: seq<int>, records: map<int, TimerRec>, free: set<int>, cap: nat,
               added: map<int, nat>)
    requires Slots(elems, records, free, cap) && Pending(now, records, added)
    ensures var t := now + QUANTUM;
      var doomed, records' := Doomed(records, t), Survivors(records, t);
      && Slots(Unselected(elems, doomed), records', free + doomed, cap)
      && Pending(t, records', Restrict(added, records'.Keys))
  {
    SlotsAfterTick(elems, records, free, cap, now + QUANTUM);
  }

  /** m without the keys outside keys. */
  ghost function Restrict(m: map<int, nat>, keys: set<int>): (r: map<int, nat>)
    ensures r.Keys == m.Keys * keys
    ensures forall s :: s in r ==> r[s] == m[s]
  {
    map s | s in m && s in keys :: m[s]
  }

  lemma SlotsAfterTick(elems: seq<int>, records: map<int, TimerRec>, free: set<int>, cap: nat, t: nat)
    requires Slots(elems, records, free, cap)
    ensures Slots(Unselected(elems, Doomed(records, t)), Survivors(records, t), free + Doomed(records, t), cap)
  {
    var doomed := Doomed(records, t);
    SplitMembers(elems, doomed);
    MembersOf(elems);
    MembersOf(Unselected(elems, doomed));
    assert Survivors(records, t).Keys == Members(Unselected(elems, doomed)) by {
      forall x ensures x in Survivors(records, t) <==> x in Members(Unselected(elems, doomed)) {
      }
    }
  }

  /** The timers that a pass over elems at tick t fires, in list order: the
      due ones. */
  function Fires(elems: seq<int>, records: map<int, TimerRec>, t: nat): (fire: seq<int>)
    ensures forall k :: 0 <= k < |fire| ==> fire[k] in Due(records, t)
  {
    SelectedIn(elems, Due(records, t));
    Selected(elems, Due(records, t))
  }

  /** Conversely, every due timer that is linked in the list is fired by the
      pass; under the slot bookkeeping every registered timer is linked. */
  lemma DueIsFired(elems: seq<int>, records: map<int, TimerRec>, free: set<int>, cap: nat, t: nat)
    requires Slots(elems, records, free, cap)
    ensures forall s :: s in Due(records, t) ==> s in Fires(elems, records, t)
  {
    MembersOf(elems);
    SplitMembers(elems, Due(records, t));
  }

  /** No timer is fired twice by one pass, since no timer is linked twice. */
  lemma FiredOnce(elems: seq<int>, records: map<int, TimerRec>, t: nat)
    requires Distinct(elems)
    ensures Distinct(Fires(elems, records, t))
  {
    SelectedDistinct(elems, Due(records, t));
  }

  /** The integers from lo up to but not including hi. */
  function Range(lo: int, hi: int): (r: set<int>)
    ensures forall s :: s in r <==> lo <= s < hi
    decreases hi - lo
  {
    if lo >= hi then {} else {lo} + Range(lo + 1, hi)
  }

  /** The timer facility: a registry of timers linked in a list, the clock,
      and the free slots of the arena; the ghost part records when each timer
      was added. */
  class TimerFacility {
    const list: ListArena
    var now: nat
    var records: map<int, TimerRec>
    var free: set<int>
    ghost var added: map<int, nat>

    ghost predicate Valid()
      reads this, list, list.next, list.prev
    {
      && list.Valid()
      && Slots(list.Elems, records, free, list.next.Length)
      && Pending(now, records, added)
    }

    /** The facility's initial state: an empty registry at time 0 with room
        for capacity - 1 timers. */
    constructor (capacity: nat)
      requires capacity > 0
      ensures Valid() && fresh(list) && fresh(list.next) && fresh(list.prev)
      ensures now == 0 && records == map[] && list.Elems == []
      ensures forall s :: s in free <==> 0 < s < capacity
    {
      list := new ListArena(capacity);
      now := 0;
      records := map[];
      free := Range(1, capacity);
      added := map[];
    }

    /** Some free slot. */
    method PickFree() returns (s: int)
      requires free != {}
      ensures s in free
    {
      assert exists x :: x in free by {
        if forall x :: x !in free { assert false; }
      }
      s :| s in free;
    }

    /** The common part of timer_add and timer_oneshot: take a free slot, fill
        in the timer and link it at the tail of the list. */
    method Schedule(expire: nat, handler: nat, arg: int, refcnt: int) returns (h: Option<int>)
      requires Valid() && refcnt in {0, 1}
      modifies this, list, list.next, list.prev
      ensures Valid() && now == old(now)
      ensures h.Some? <==> old(free) != {}
      ensures h.None? ==> records == old(records) && free == old(free) && list.Elems == old(list.Elems)
      ensures h.Some? ==>
        && h.value in old(free) && h.value !in old(records)
        && records == old(records)[h.value := TimerRec(refcnt, old(now) + expire, false, handler, arg)]
        && free == old(free) - {h.value}
        && list.Elems == old(list.Elems) + [h.value]
    {
      if free == {} {
        return None;
      }
      var s := PickFree();
      var rec := TimerRec(refcnt, now + expire, false, handler, arg);
      ScheduleOk(now, list.Elems, records, free, list.next.Length, added, s, rec);
      MembersOf(list.Elems);
      list.AddTail(s);
      records := records[s := rec];
      free := free - {s};
      added := added[s := now];
      h := Some(s);
    }

    /** timer_add: schedule handler(arg) to run expire ms from now and return
        a handle that must be released or cancelled exactly once. */
    method Add(expire: nat, handler: nat, arg: int) returns (h: Option<int>)
      requires Valid()
      modifies this, list, list.next, list.prev
      ensures Valid() && now == old(now)
      ensures h.Some? <==> old(free) != {}
      ensures h.Some? ==>
        && h.value in old(free) && h.value !in old(records)
        && records == old(records)[h.value := TimerRec(1, old(now) + expire, false, handler, arg)]
        && free == old(free) - {h.value}
        && list.Elems == old(list.Elems) + [h.value]
      ensures h.None? ==> records == old(records) && free == old(free) && list.Elems == old(list.Elems)
    {
      h := Schedule(expire, handler, arg, 1);
    }

    /** timer_oneshot: like timer_add, but no handle is kept, so the timer can
        not be cancelled and needs no release. The slot it takes is returned
        only as a ghost, for the contract. */
    method Oneshot(expire: nat, handler: nat, arg: int) returns (ok: bool, ghost slot: int)
      requires Valid()
      modifies this, list, list.next, list.prev
      ensures Valid() && now == old(now)
      ensures ok <==> old(free) != {}
      ensures ok ==>
        && slot in old(free) && slot !in old(records)
        && records == old(records)[slot := TimerRec(0, old(now) + expire, false, handler, arg)]
        && free == old(free) - {slot}
        && list.Elems == old(list.Elems) + [slot]
      ensures !ok ==> records == old(records) && free == old(free) && list.Elems == old(list.Elems)
    {
      var h := Schedule(expire, handler, arg, 0);
      ok := h.Some?;
      slot := if ok then h.value else 0;
    }

    /** timer_release: give up the handle; the handler still runs once the
        timer expires. Releasing a handle twice is excluded by the requires. */
    method Release(h: int)
      requires Valid() && h in records && records[h].refcnt == 1
      modifies this
      ensures Valid() && now == old(now)
      ensures records == old(records)[h := old(records[h]).(refcnt := 0)]
      ensures free == old(free) && added == old(added)
    {
      records := records[h := records[h].(refcnt := 0)];
    }

    /** timer_cancel: give up the handle and cancel the timer, so that its
        handler no longer runs (if it has not already run). */
    method Cancel(h: int)
      requires Valid() && h in records && records[h].refcnt == 1
      modifies this
      ensures Valid() && now == old(now)
      ensures records == old(records)[h := old(records[h]).(refcnt := 0, cancelled := true)]
      ensures free == old(free) && added == old(added)
    {
      records := records[h := records[h].(refcnt := 0, cancelled := true)];
    }

    /** timer_get_tick: the current time in milliseconds. */
    method GetTick() returns (t: nat)
      requires Valid()
      ensures t == now && t % QUANTUM == 0
    {
      t := now;
    }

    /** One step of the timer thread: the clock advances by QUANTUM ms, and a
        pass over the list in order fires every timer that is due, marks it
        cancelled, and unlinks and frees every timer nobody holds that is
        cancelled or has just fired. The handlers to start are returned in
        list order; each fires at its fire time. */
    method Tick() returns (dispatched: seq<Dispatch>)
      requires Valid()
      modifies this, list, list.next, list.prev
      ensures Valid()
      ensures now == old(now) + QUANTUM
      ensures dispatched == Calls(Fires(old(list.Elems), old(records), now), old(records))
      ensures forall s :: s in Due(old(records), now) ==> s in Fires(old(list.Elems), old(records), now)
      ensures Distinct(Fires(old(list.Elems), old(records), now))
      ensures forall s :: s in Due(old(records), now) ==> now == FireTime(old(added)[s], old(records)[s].expires)
      ensures records == Survivors(old(records), now)
      ensures list.Elems == Unselected(old(list.Elems), Doomed(old(records), now))
      ensures free == old(free) + Doomed(old(records), now)
    {
      ghost var n0, e0, r0, f0, a0 := now, list.Elems, records, free, added;
      DueAtFireTime(now, records, added);
      var t := now + QUANTUM;
      DueIsFired(list.Elems, records, free, list.next.Length, t);
      list.ElemsInSlots();
      FiredOnce(list.Elems, records, t);
      var doomed := Doomed(records, t);
      var visited, removed := list.ForEachSafe(doomed);
      dispatched := Calls(Fires(visited, records, t), records);
      added := Restrict(added, Survivors(records, t).Keys);
      records, free, now := Survivors(records, t), free + doomed, t;
      TickOk(n0, e0, r0, f0, list.next.Length, a0);
      assert Slots(list.Elems, records, free, list.next.Length);
    }
  }
}
