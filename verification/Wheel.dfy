// src/reactor/wheel.rs: `Inner`, the timing wheel with its slots and its slab of entries.
module TimingWheel {
  import opened Bits
  import opened Slabs
  import opened WheelLinks
  import opened WheelSpec
  import L = WheelLinks
  import S = WheelSpec

  function Infos(m: map<nat, TimerEntry>): (r: map<nat, Info>) {
    map id | id in m :: Info(m[id].task, m[id].expiration)
  }

  // `slot & self.mask`
  function EffectiveSlot(slot: nat): (s: nat)
    ensures s == slot % 128 && s < NUM_SLOTS
    ensures slot < 2 * NUM_SLOTS ==> s == if slot < NUM_SLOTS then slot else slot - NUM_SLOTS
  {
    MaskIsMod(slot, 7);
    assert Pow2(7) == 2 * Pow2(6) && Pow2(6) == 2 * Pow2(5) && Pow2(5) == 2 * Pow2(4);
    assert Pow2(4) == 2 * Pow2(3) && Pow2(3) == 2 * Pow2(2) && Pow2(2) == 2 * Pow2(1);
    And(slot, MASK)
  }

  // Rings only depend on the links.
  ghost predicate SameLinks(w: Mem, v: Mem) {
    && v.slots == w.slots && v.entries.Keys == w.entries.Keys
    && (forall id :: id in w.entries ==>
      v.entries[id].prev == w.entries[id].prev && v.entries[id].next == w.entries[id].next)
  }

  lemma SameLinksRing(w: Mem, v: Mem, b: Buckets, open: nat)
    requires SameLinks(w, v) && Ring(w, b, open)
    ensures Ring(v, b, open)
  {
    forall s: nat | s < NUM_SLOTS ensures Linked(v, b, s, open) {
      assert Linked(w, b, s, open);
      LinkedFrame(w, v, b, b, s, open);
    }
  }

  lemma {:induction false} WithoutAt(ids: seq<nat>, k: nat)
    requires NoDup(ids) && k < |ids|
    ensures Without(ids, ids[k]) == ids[..k] + ids[k + 1..]
  {
    if k > 0 {
      WithoutAt(ids[1..], k - 1);
      assert ids[1..][..k - 1] == ids[1..k];
    }
  }

  // Dropping a placed timer cuts it out of its bucket; dropping an expired one changes nothing.
  lemma DropAt(b: Buckets, s: nat, k: nat)
    requires Distinct(b) && s < |b| && k < |b[s]|
    ensures Drop(b, b[s][k]) == b[s := b[s][..k] + b[s][k + 1..]]
  {
    WithoutAt(b[s], k);
    assert b[s][k] in b[s];
  }

  lemma DropUnplaced(b: Buckets, id: nat)
    requires !Placed(b, id)
    ensures Drop(b, id) == b
  {
  }

  lemma Locate(b: Buckets, id: nat) returns (s: nat, k: nat)
    requires Placed(b, id)
    ensures s < |b| && k < |b[s]| && b[s][k] == id
  {
    s :| s < |b| && id in b[s];
    k :| k < |b[s]| && b[s][k] == id;
  }

  // Taking a timer out of the ring, whether it is in it or has expired.
  lemma UnlinkAny(w: Mem, b: Buckets, id: nat, open: nat)
    requires Ring(w, b, open) && id in w.entries
    requires open < NUM_SLOTS && b[open] != [] ==> id != b[open][0]
    ensures w.entries[id].prev == Nil <==> !Placed(b, id)
    ensures Placed(b, id) ==> Unlinkable(w, id) && Ring(Detach(Unlink(w, id), id), Drop(b, id), open)
    ensures !Placed(b, id) ==> Ring(w, Drop(b, id), open)
  {
    if Placed(b, id) {
      var s, k := Locate(b, id);
      UnlinkRing(w, b, s, k, open);
      DropAt(b, s, k);
    } else {
      DropUnplaced(b, id);
    }
  }

  lemma InfosUpdate(m: map<nat, TimerEntry>, id: nat, e: TimerEntry)
    ensures Infos(m[id := e]) == Infos(m)[id := Info(e.task, e.expiration)]
  {
  }

  lemma InfosRemove(m: map<nat, TimerEntry>, id: nat)
    ensures Infos(m - {id}) == Infos(m) - {id}
  {
  }

  // ---- the assignments of each operation, and the ring they leave ----

  // `new` links every slot to its neighbours.
  lemma EmptyRing(w: Mem, b: Buckets)
    requires |w.slots| == |b| == NUM_SLOTS && w.entries == map[]
    requires forall s: nat :: s < NUM_SLOTS ==> b[s] == []
    requires forall i: nat :: i < NUM_SLOTS ==> w.slots[i] == SlotLinks(Slot(Before(i)), Slot(After(i)))
    ensures Ring(w, b, NONE)
  {
    forall s: nat | s < NUM_SLOTS ensures Linked(w, b, s, NONE) {
      assert b[s] == [] && w.slots[Before(s)].next == Slot(s);
    }
  }

  // `schedule` inserts an entry that already points at its neighbours, then points the neighbours at it.
  function Scheduled(w: Mem, s: nat, id: nat, task: TaskId, exp: Option<nat>): (v: Mem)
    requires s < |w.slots|
    requires Has(w.(entries := w.entries[id := TimerEntry(w.slots[s].prev, Slot(s), task, exp)]), w.slots[s].prev)
  {
    var prev := w.slots[s].prev;
    var w1 := w.(entries := w.entries[id := TimerEntry(prev, Slot(s), task, exp)]);
    L.SetPrev(L.SetNext(w1, prev, Entry(id)), Slot(s), Entry(id))
  }

  lemma ScheduledIs(w: Mem, s: nat, id: nat, task: TaskId, exp: Option<nat>)
    requires s < |w.slots| && Has(w.(entries := w.entries[id := TimerEntry(Nil, Nil, task, exp)]), w.slots[s].prev)
    ensures Scheduled(w, s, id, task, exp)
      == LinkBefore(w.(entries := w.entries[id := TimerEntry(Nil, Nil, task, exp)]), s, id)
  {
    var v := w.(entries := w.entries[id := TimerEntry(Nil, Nil, task, exp)]);
    var w1 := w.(entries := w.entries[id := TimerEntry(w.slots[s].prev, Slot(s), task, exp)]);
    assert w1 == L.SetPrev(L.SetNext(v, Entry(id), Slot(s)), Entry(id), w.slots[s].prev);
  }

  lemma ScheduleRing(w: Mem, b: Buckets, s: nat, id: nat, task: TaskId, exp: Option<nat>, open: nat)
    requires Ring(w, b, open) && s < NUM_SLOTS && (s == open ==> b[s] != []) && id !in w.entries
    ensures s < |w.slots| && Has(w.(entries := w.entries[id := TimerEntry(w.slots[s].prev, Slot(s), task, exp)]),
      w.slots[s].prev)
    ensures Ring(Scheduled(w, s, id, task, exp), b[s := b[s] + [id]], open)
  {
    var e := TimerEntry(Nil, Nil, task, exp);
    AddRing(w, b, id, e, open);
    var v := w.(entries := w.entries[id := e]);
    if s == open { EarlyEntry(v, b, s, id); } else { LinkRing(v, b, s, id, open); }
    ScheduledIs(w, s, id, task, exp);
  }

  // The same, with nothing left of the bucket that drains. The slab index may be that of the entry visited last.
  lemma ScheduleLost(w: Mem, b: Buckets, s: nat, id: nat, task: TaskId, exp: Option<nat>)
    requires Ring(w, b, s) && s < NUM_SLOTS && b[s] == [] && id !in w.entries
    requires LastGone(w, b, s, id)
    ensures s < |w.slots| && Has(w.(entries := w.entries[id := TimerEntry(w.slots[s].prev, Slot(s), task, exp)]),
      w.slots[s].prev)
    ensures Lost(Scheduled(w, s, id, task, exp), b, id) && AllLinked(Scheduled(w, s, id, task, exp), b, s)
  {
    var e := TimerEntry(Nil, Nil, task, exp);
    AddRing(w, b, id, e, s);
    LostEntry(w.(entries := w.entries[id := e]), b, s, id);
    ScheduledIs(w, s, id, task, exp);
  }

  // `reschedule_internal` overwrites whatever links the entry had.
  function PutIn(w: Mem, s: nat, id: nat): (v: Mem)
    requires id in w.entries && s < |w.slots| && Has(w, w.slots[s].prev)
  {
    var prev := w.slots[s].prev;
    var w1 := L.SetNext(L.SetPrev(w, Entry(id), prev), Entry(id), Slot(s));
    L.SetPrev(L.SetNext(w1, prev, Entry(id)), Slot(s), Entry(id))
  }

  lemma PutInIs(w: Mem, s: nat, id: nat)
    requires id in w.entries && s < |w.slots| && Has(w, w.slots[s].prev)
    ensures PutIn(w, s, id) == LinkBefore(Detach(w, id), s, id)
  {
    var prev := w.slots[s].prev;
    assert L.SetNext(L.SetPrev(w, Entry(id), prev), Entry(id), Slot(s))
      == L.SetPrev(L.SetNext(Detach(w, id), Entry(id), Slot(s)), Entry(id), prev);
  }

  lemma PlaceRing(w: Mem, b: Buckets, s: nat, id: nat, open: nat)
    requires id in w.entries && Ring(Detach(w, id), b, open) && !Placed(b, id) && s < NUM_SLOTS
      && (s == open ==> b[s] != [])
    ensures s < |w.slots| && Has(w, w.slots[s].prev)
    ensures Ring(PutIn(w, s, id), b[s := b[s] + [id]], open)
  {
    var v := Detach(w, id);
    if s == open { EarlyEntry(v, b, s, id); } else { LinkRing(v, b, s, id, open); }
    PutInIs(w, s, id);
  }

  lemma PlaceLost(w: Mem, b: Buckets, s: nat, id: nat)
    requires id in w.entries && Ring(Detach(w, id), b, s) && !Placed(b, id) && s < NUM_SLOTS && b[s] == []
      && LastGone(w, b, s, id)
    ensures s < |w.slots| && Has(w, w.slots[s].prev)
    ensures Lost(PutIn(w, s, id), b, id) && AllLinked(PutIn(w, s, id), b, s)
  {
    LostEntry(Detach(w, id), b, s, id);
    PutInIs(w, s, id);
  }

  lemma RetimeRing(w: Mem, b: Buckets, id: nat, exp: Option<nat>, open: nat)
    requires id in w.entries && Ring(Detach(w, id), b, open)
    ensures Ring(Detach(w.(entries := w.entries[id := w.entries[id].(expiration := exp)]), id), b, open)
  {
    SameLinksRing(Detach(w, id), Detach(w.(entries := w.entries[id := w.entries[id].(expiration := exp)]), id), b,
      open);
  }

  lemma RemoveThenRelink(w: Mem, id: nat)
    requires Unlinkable(w, id)
    ensures var e, v, u := w.entries[id], w.(entries := w.entries - {id}), Detach(Unlink(w, id), id);
      && Has(v, e.prev) && Has(v, e.next)
      && u.(entries := u.entries - {id}) == L.SetPrev(L.SetNext(v, e.prev, e.next), e.next, e.prev)
  {
    var e, v, u := w.entries[id], w.(entries := w.entries - {id}), Detach(Unlink(w, id), id);
    var x := L.SetPrev(L.SetNext(v, e.prev, e.next), e.next, e.prev);
    assert u.slots == x.slots;
    assert u.entries.Keys == w.entries.Keys && x.entries.Keys == v.entries.Keys;
    assert u.entries - {id} == x.entries;
  }

  // `cancel` removes the entry first and then relinks its neighbours.
  lemma CancelRing(w: Mem, b: Buckets, id: nat, open: nat)
    requires Ring(w, b, open) && id in w.entries
    requires open < NUM_SLOTS && b[open] != [] ==> id != b[open][0]
    ensures var e, v := w.entries[id], w.(entries := w.entries - {id});
      if e.prev == Nil then Ring(v, Drop(b, id), open)
      else
        && Has(v, e.prev) && Has(v, e.next)
        && Ring(L.SetPrev(L.SetNext(v, e.prev, e.next), e.next, e.prev), Drop(b, id), open)
  {
    UnlinkAny(w, b, id, open);
    DropMembers(b, id);
    if Placed(b, id) {
      var u := Detach(Unlink(w, id), id);
      ForgetRing(u, Drop(b, id), id, open);
      RemoveThenRelink(w, id);
    } else {
      ForgetRing(w, Drop(b, id), id, open);
    }
  }

  // A visit takes the first entry out of the open bucket, with its links and its expiration.
  lemma ExpireRing(w: Mem, b: Buckets, open: nat, id: nat)
    requires Ring(w, b, open) && open < |b| && b[open] != [] && b[open][0] == id
    ensures id in w.entries && w.entries[id].next == Head(b[open][1..], Slot(open))
    ensures var c := b[open := b[open][1..]];
      var v := w.(entries := w.entries[id := TimerEntry(Nil, Nil, w.entries[id].task, None)]);
      !Placed(c, id) && Ring(v, c, open) && Ring(Detach(v, id), c, open)
    ensures |b[open]| == 1 ==> w.slots[open].prev == Entry(id) && LastGone(w, b[open := b[open][1..]], open, id)
  {
    if |b[open]| == 1 { LastVisited(w, b, open); }
    VisitRing(w, b, open);
    var c, v := b[open := b[open][1..]], w.(entries := w.entries[id := TimerEntry(Nil, Nil, w.entries[id].task, None)]);
    SameLinksRing(Detach(w, id), v, c, open);
    SameLinksRing(Detach(w, id), Detach(v, id), c, open);
  }

  // The effect of `schedule` and `reschedule_internal` on the abstract wheel, field by field.
  lemma ScheduleAbs(a: Wheel, b: Wheel, now: nat, dur: nat, task: TaskId, s: nat, exp: Option<nat>)
    requires a.current < NUM_SLOTS && |a.buckets| == NUM_SLOTS && s == SlotAt(a.current, Min(dur / SEC, MASK))
    requires exp == if dur / SEC > MASK then Some(now + dur) else None
    requires b.current == a.current && b.buckets == a.buckets[s := a.buckets[s] + [NextId(a)]]
    requires b.timers == a.timers[NextId(a) := Info(task, exp)]
    requires b.free == if a.free == [] then [] else a.free[1..]
    requires b.size == if a.free == [] then a.size + 1 else a.size
    ensures b == Apply(a, Op.Schedule(now, dur, task))
  {
  }

  lemma PlaceAbs(a: Wheel, b: Wheel, now: nat, dur: nat, exp: Option<nat>, id: nat, s: nat)
    requires a.current < NUM_SLOTS && |a.buckets| == NUM_SLOTS && id in a.timers
    requires s == SlotAt(a.current, Min(RoundToSecs(dur), MASK))
    requires b.current == a.current && b.buckets == a.buckets[s := a.buckets[s] + [id]]
    requires b.timers == if RoundToSecs(dur) <= MASK then a.timers
                         else a.timers[id := Info(a.timers[id].task, if exp.Some? then exp else Some(now + dur))]
    requires b.free == a.free && b.size == a.size
    ensures b == S.Place(a, now, dur, exp, id)
  {
  }

  // What comes of an expired entry, if the wheel `b` is what is left without it.
  ghost predicate Expected(b: Wheel, id: nat, info: Info, v: Visit, open: nat, r: Outcome)
    requires WF(b)
  {
    && id in b.timers
    && if info.expiration.Some? && info.expiration.value >= v.now + SEC
       then
         && (SlotAt(b.current, Min(RoundToSecs(info.expiration.value - v.now), MASK)) == open ==>
           open < NUM_SLOTS && b.buckets[open] != [])
         && r == Outcome(S.Place(b, v.now, info.expiration.value - v.now, info.expiration, id), false, [])
       else ApplyAll(b, v.ops, open).Some? && r == Outcome(ApplyAll(b, v.ops, open).value, v.exit, [Run(id, info.task)])
  }

  lemma VisitIs(a: Wheel, open: nat, env: Env)
    requires WF(a) && open == After(a.current) && a.buckets[open] != [] && VisitFirst(a, open, env, false).Some?
    ensures a.buckets[open][0] in a.timers && open < |a.buckets| && WF(Take(a, open))
    ensures var id := a.buckets[open][0];
      Expected(Take(a, open), id, a.timers[id], env.at(id), open, VisitFirst(a, open, env, false).value)
  {
    hide ApplyAll, Distinct, VisitFirst, RoundToSecs, S.Place;
    VisitCases(a, open, env, false);
    var id := a.buckets[open][0];
    if !Due(a.timers[id], env.at(id).now) { RejoinsOpen(a.current, a.timers[id], env.at(id).now); }
  }

  lemma RingSize(w: Mem, b: Buckets, open: nat)
    requires Ring(w, b, open)
    ensures |w.slots| == |b| == NUM_SLOTS
  {
  }

  // Taking an entry out of another bucket does not touch what the slot of the drained one names.
  lemma UnlinkKeepsLast(w: Mem, b: Buckets, id: nat, open: nat)
    requires Ring(w, b, open) && id in w.entries && Placed(b, id) && Unlinkable(w, id)
    requires open < NUM_SLOTS && b[open] == [] && LastGone(w, b, open, id)
    ensures LastGone(Detach(Unlink(w, id), id), Drop(b, id), open, id) && LastGone(Unlink(w, id), Drop(b, id), open, id)
  {
    var s, k := Locate(b, id);
    EntryNear(w, b, s, k, open);
    DropMembers(b, id);
  }

  // Taking out another entry leaves the first one of the bucket that drains.
  lemma StillOpen(a: Wheel, id: nat, open: nat)
    requires |a.buckets| == NUM_SLOTS && open < NUM_SLOTS && a.buckets[open] != [] && id != a.buckets[open][0]
    ensures Drop(a.buckets, id)[open] != []
  {
  }

  class Inner {
    const entries: Slab<TimerEntry>
    var slots: seq<SlotLinks>
    var currentSlot: nat
    ghost var buckets: Buckets

    ghost function Memory(): (r: Mem)
      reads this, entries
    {
      Mem(slots, entries.Map())
    }

    ghost function Abs(): (r: Wheel)
      reads this, entries
    {
      Wheel(currentSlot, buckets, Infos(entries.Map()), entries.chain, |entries.objs|)
    }

    // Outside `tick` no bucket is open.
    ghost predicate ValidOpen(open: nat)
      reads this, entries
    {
      entries.Valid() && currentSlot < NUM_SLOTS && Ring(Memory(), buckets, open)
    }

    ghost predicate Valid()
      reads this, entries
    {
      ValidOpen(NONE)
    }

    lemma AbsWF(open: nat)
      requires ValidOpen(open)
      ensures WF(Abs()) && NextId(Abs()) == entries.NextIndex()
      ensures entries.hfree == INVALID_INDEX <==> Abs().free == []
    {
      ChainEmpty(entries.objs, entries.hfree, entries.chain);
    }

    constructor ()
      ensures Valid() && fresh(entries)
      ensures Abs() == Wheel(0, seq(NUM_SLOTS, _ => []), map[], [], 0)
    {
      entries := new Slab();
      slots := seq(NUM_SLOTS, i requires 0 <= i < NUM_SLOTS =>
        SlotLinks(Slot(EffectiveSlot(i + MASK)), Slot(EffectiveSlot(i + 1))));
      currentSlot := 0;
      buckets := seq(NUM_SLOTS, _ => []);
      new;
      EmptyRing(Memory(), buckets);
      assert Infos(entries.Map()) == map[];
    }

    method IsExpired(id: nat) returns (r: bool)
      requires Valid() && id in Abs().timers
      ensures r <==> !Placed(Abs().buckets, id)
    {
      PlacedIffLinked(Memory(), buckets, id);
      r := entries.objs[id].elem.prev.Nil?;
    }

    // The two kinds of link assignment, on an entry or on a slot.
    method SetNext(t: Token, v: Token)
      requires entries.Valid() && Has(Memory(), t)
      modifies this`slots, entries
      ensures entries.Valid() && Memory() == L.SetNext(old(Memory()), t, v)
      ensures entries.chain == old(entries.chain) && |entries.objs| == old(|entries.objs|)
      ensures Infos(entries.Map()) == old(Infos(entries.Map()))
    {
      match t {
        case Entry(id) => entries.Set(id, entries.objs[id].elem.(next := v));
        case Slot(i) => slots := slots[i := slots[i].(next := v)];
      }
    }

    method SetPrev(t: Token, v: Token)
      requires entries.Valid() && Has(Memory(), t)
      modifies this`slots, entries
      ensures entries.Valid() && Memory() == L.SetPrev(old(Memory()), t, v)
      ensures entries.chain == old(entries.chain) && |entries.objs| == old(|entries.objs|)
      ensures Infos(entries.Map()) == old(Infos(entries.Map()))
    {
      match t {
        case Entry(id) => entries.Set(id, entries.objs[id].elem.(prev := v));
        case Slot(i) => slots := slots[i := slots[i].(prev := v)];
      }
    }

    // The two assignments by which the source joins or parts neighbours: a.next = x and b.prev = y.
    method Relink(a: Token, x: Token, b: Token, y: Token)
      requires entries.Valid() && Has(Memory(), a) && Has(Memory(), b)
      modifies this`slots, entries
      ensures entries.Valid() && Memory() == L.SetPrev(L.SetNext(old(Memory()), a, x), b, y)
      ensures entries.chain == old(entries.chain) && |entries.objs| == old(|entries.objs|)
      ensures Infos(entries.Map()) == old(Infos(entries.Map()))
    {
      SetNext(a, x);
      SetPrev(b, y);
    }

    // Entry `id` has been put in when nothing was left of the bucket that drains.
    ghost predicate Cut(id: nat, open: nat)
      reads this, entries
    {
      && entries.Valid() && currentSlot < NUM_SLOTS && open < NUM_SLOTS && |buckets| == NUM_SLOTS && buckets[open] == []
      && AllLinked(Memory(), buckets, open) && Lost(Memory(), buckets, id)
    }

    // Inserts a new entry before slot `slot`.
    method AddEntry(slot: nat, task: TaskId, expiration: Option<nat>, ghost open: nat) returns (id: nat)
      requires ValidOpen(open) && slot < NUM_SLOTS && |slots| == |buckets| == NUM_SLOTS
      requires slot == open && buckets[open] == [] ==> LastGone(Memory(), buckets, open, entries.NextIndex())
      requires entries.chain == [] ==> |entries.objs| < INVALID_INDEX
      modifies this, entries
      ensures currentSlot == old(currentSlot) && id == old(entries.NextIndex())
      ensures if slot == open && old(buckets)[open] == [] then Cut(id, open) && buckets == old(buckets)
        else ValidOpen(open) && buckets == old(buckets)[slot := old(buckets)[slot] + [id]]
      ensures Infos(entries.Map()) == old(Infos(entries.Map()))[id := Info(task, expiration)]
      ensures entries.chain == if old(entries.chain) == [] then [] else old(entries.chain)[1..]
      ensures |entries.objs| == if old(entries.chain) == [] then old(|entries.objs|) + 1 else old(|entries.objs|)
    {
      hide Ring, Distinct, Lost, AllLinked, LastGone;
      ChainEmpty(entries.objs, entries.hfree, entries.chain);
      var prev := slots[slot].prev;
      ghost var lost := slot == open && buckets[open] == [];
      if lost {
        ScheduleLost(Memory(), buckets, slot, entries.NextIndex(), task, expiration);
      } else {
        ScheduleRing(Memory(), buckets, slot, entries.NextIndex(), task, expiration, open);
      }
      InfosUpdate(entries.Map(), entries.NextIndex(), TimerEntry(prev, Slot(slot), task, expiration));
      id := entries.Insert(TimerEntry(prev, Slot(slot), task, expiration));
      Relink(prev, Entry(id), Slot(slot), Entry(id));
      if !lost { buckets := buckets[slot := buckets[slot] + [id]]; }
    }

    // While a bucket drains, a timer of one second joins it, and is lost if nothing of it is left.
    method Schedule(now: nat, dur: nat, task: TaskId, ghost open: nat) returns (id: nat)
      requires ValidOpen(open) && Allowed(Abs(), Op.Schedule(now, dur, task), open)
      requires Strands(Abs(), Op.Schedule(now, dur, task), open) ==> LastGone(Memory(), buckets, open, NextId(Abs()))
      modifies this, entries
      ensures id == old(NextId(Abs()))
      ensures if Strands(old(Abs()), Op.Schedule(now, dur, task), open) then Cut(id, open) && buckets == old(buckets)
        else ValidOpen(open) && Abs() == Apply(old(Abs()), Op.Schedule(now, dur, task))
      ensures currentSlot == old(currentSlot)
    {
      AbsWF(open);
      assert |slots| == |buckets| == NUM_SLOTS;
      hide Ring, WF, Distinct;
      var timeout := dur / SEC;
      var expiration := None;
      if timeout > MASK {
        timeout := MASK;
        expiration := Some(now + dur);
      }
      var slot := EffectiveSlot(currentSlot + timeout);
      ghost var a := Abs();
      id := AddEntry(slot, task, expiration, open);
      if !Strands(a, Op.Schedule(now, dur, task), open) { ScheduleAbs(a, Abs(), now, dur, task, slot, expiration); }
    }

    // Links entry `id`, which is in no bucket, in before slot `slot`; its own links may be stale.
    method LinkIn(slot: nat, id: nat, ghost open: nat)
      requires entries.Valid() && currentSlot < NUM_SLOTS && id in Memory().entries
      requires Ring(Detach(Memory(), id), buckets, open) && !Placed(buckets, id) && slot < NUM_SLOTS == |buckets|
      requires slot == open && buckets[open] == [] ==> LastGone(Memory(), buckets, open, id)
      modifies this, entries
      ensures if slot == open && old(buckets)[open] == [] then Cut(id, open) && buckets == old(buckets)
        else ValidOpen(open) && buckets == old(buckets)[slot := old(buckets)[slot] + [id]]
      ensures Infos(entries.Map()) == old(Infos(entries.Map())) && currentSlot == old(currentSlot)
      ensures entries.chain == old(entries.chain) && |entries.objs| == old(|entries.objs|)
    {
      hide Ring, Distinct, Lost, AllLinked, LastGone;
      ghost var lost := slot == open && buckets[open] == [];
      if lost { PlaceLost(Memory(), buckets, slot, id); } else { PlaceRing(Memory(), buckets, slot, id, open); }
      var prev := slots[slot].prev;
      SetPrev(Entry(id), prev);
      SetNext(Entry(id), Slot(slot));
      Relink(prev, Entry(id), Slot(slot), Entry(id));
      if !lost { buckets := buckets[slot := buckets[slot] + [id]]; }
    }

    // `reschedule_internal`
    method Place(now: nat, dur: nat, exp: Option<nat>, id: nat, ghost open: nat)
      requires entries.Valid() && currentSlot < NUM_SLOTS && |buckets| == NUM_SLOTS && id in Abs().timers
      requires Ring(Detach(Memory(), id), buckets, open) && !Placed(buckets, id)
      requires StrandsAt(dur, open) ==> LastGone(Memory(), buckets, open, id)
      modifies this, entries
      ensures if old(StrandsAt(dur, open)) then Cut(id, open) && buckets == old(buckets)
        else ValidOpen(open) && Abs() == S.Place(old(Abs()), now, dur, exp, id)
      ensures currentSlot == old(currentSlot)
    {
      ghost var a := Abs();
      var timeout := RoundToSecs(dur);
      if timeout > MASK {
        timeout := MASK;
        var expiration := match exp case None => Some(now + dur) case Some(_) => exp;
        RetimeRing(Memory(), buckets, id, expiration, open);
        InfosUpdate(entries.Map(), id, entries.objs[id].elem.(expiration := expiration));
        entries.Set(id, entries.objs[id].elem.(expiration := expiration));
      }
      var slot := EffectiveSlot(currentSlot + timeout);
      ghost var lost := slot == open && buckets[open] == [];
      LinkIn(slot, id, open);
      if !lost { PlaceAbs(a, Abs(), now, dur, exp, id, slot); }
    }

    // The duration leads into the bucket that drains, of which nothing is left.
    ghost predicate StrandsAt(dur: nat, open: nat)
      requires currentSlot < NUM_SLOTS && |buckets| == NUM_SLOTS
      reads this
    {
      open < NUM_SLOTS && SlotAt(currentSlot, Min(RoundToSecs(dur), MASK)) == open && buckets[open] == []
    }

    // Takes a linked entry out of its bucket.
    method TakeOut(id: nat, ghost open: nat)
      requires ValidOpen(open) && Placed(buckets, id) && id in Memory().entries
      requires open < NUM_SLOTS == |buckets| && buckets[open] != [] ==> buckets[open][0] != id
      modifies this, entries
      ensures entries.Valid() && currentSlot == old(currentSlot) < NUM_SLOTS && id in Memory().entries
      ensures Abs() == old(Abs()).(buckets := Drop(old(buckets), id)) && |buckets| == NUM_SLOTS
      ensures Ring(Detach(Memory(), id), buckets, open) && !Placed(buckets, id)
      ensures open < NUM_SLOTS && old(buckets)[open] == [] && old(LastGone(Memory(), buckets, open, id)) ==>
        LastGone(Memory(), buckets, open, id)
    {
      UnlinkAny(Memory(), buckets, id, open);
      if open < NUM_SLOTS && buckets[open] == [] && LastGone(Memory(), buckets, open, id) {
        UnlinkKeepsLast(Memory(), buckets, id, open);
      }
      DropMembers(buckets, id);
      hide Ring, Distinct, LastGone;
      var e := entries.objs[id].elem;
      Relink(e.prev, e.next, e.next, e.prev);
      buckets := Drop(buckets, id);
    }

    method Reschedule(now: nat, dur: nat, id: nat, ghost open: nat)
      requires ValidOpen(open) && Allowed(Abs(), Op.Reschedule(now, dur, id), open)
      requires Strands(Abs(), Op.Reschedule(now, dur, id), open) ==> LastGone(Memory(), buckets, open, id)
      modifies this, entries
      ensures if Strands(old(Abs()), Op.Reschedule(now, dur, id), open) then Cut(id, open)
        && buckets == Drop(old(buckets), id)
        else ValidOpen(open) && Abs() == Apply(old(Abs()), Op.Reschedule(now, dur, id))
      ensures currentSlot == old(currentSlot)
      ensures !Strands(old(Abs()), Op.Reschedule(now, dur, id), open) ==>
        id in old(Abs().timers) && Abs().timers == Restored(old(Abs().timers), id, now, dur)
    {
      AbsWF(open);
      if !Strands(Abs(), Op.Reschedule(now, dur, id), open) { RescheduleStores(Abs(), now, dur, id, open); }
      hide Ring, Distinct, LastGone, Restored, RoundToSecs, WF;
      ghost var a, lost := Abs(), Strands(Abs(), Op.Reschedule(now, dur, id), open);
      TakeOut(id, open);
      if open < NUM_SLOTS && a.buckets[open] != [] { StillOpen(a, id, open); }
      assert StrandsAt(dur, open) <==> lost;
      Place(now, dur, None, id, open);
    }

    method Cancel(id: nat, ghost open: nat)
      requires ValidOpen(open) && Possible(Abs(), Op.Cancel(id), open)
      modifies this, entries
      ensures ValidOpen(open) && Abs() == Apply(old(Abs()), Op.Cancel(id))
      ensures old(Memory().entries[id].prev.Nil?) ==> slots == old(slots)
    {
      hide Ring, WF, Distinct;
      CancelRing(Memory(), buckets, id, open);
      InfosRemove(entries.Map(), id);
      buckets := Drop(buckets, id);
      var r := entries.Remove(id);
      var e := r.value;
      if !e.prev.Nil? {
        Relink(e.prev, e.next, e.next, e.prev);
      }
    }

    method DoOp(op: Op, ghost open: nat)
      requires ValidOpen(open) && Possible(Abs(), op, open)
      modifies this, entries
      ensures ValidOpen(open) && Abs() == Apply(old(Abs()), op)
    {
      match op {
        case Schedule(now, dur, task) => var _ := Schedule(now, dur, task, open);
        case Reschedule(now, dur, id) => Reschedule(now, dur, id, open);
        case Cancel(id) => Cancel(id, open);
      }
    }

    // `run_expired_task`, as far as the wheel is concerned: what the task of an expired timer does to it.
    method RunTask(ops: seq<Op>, ghost open: nat)
      requires ValidOpen(open) && WF(Abs()) && ApplyAll(Abs(), ops, open).Some?
      modifies this, entries
      ensures ValidOpen(open) && WF(Abs()) && ApplyAll(old(Abs()), ops, open) == Some(Abs())
    {
      hide Ring, Possible, Apply, WF;
      var i := 0;
      while i < |ops|
        invariant 0 <= i <= |ops|
        invariant ValidOpen(open) && WF(Abs())
        invariant ApplyAll(Abs(), ops[i..], open) == ApplyAll(old(Abs()), ops, open)
      {
        assert ops[i..][0] == ops[i] && ops[i..][1..] == ops[i + 1..];
        ApplyKeeps(Abs(), ops[i], open);
        DoOp(ops[i], open);
        i := i + 1;
      }
    }

    // Marks the first entry of the open bucket as expired and takes its expiration out.
    method Expire(id: nat, ghost open: nat) returns (next: Token, task: TaskId, expiration: Option<nat>)
      requires ValidOpen(open) && WF(Abs()) && open < NUM_SLOTS && buckets[open] != [] && buckets[open][0] == id
      requires id in Abs().timers
      modifies this, entries
      ensures ValidOpen(open) && Abs() == Take(old(Abs()), open) && !Placed(buckets, id)
      ensures Info(task, expiration) == old(Abs()).timers[id]
      ensures next == Head(buckets[open], Slot(open))
      ensures id in Memory().entries && Ring(Detach(Memory(), id), buckets, open)
      ensures Memory().entries[id].prev.Nil? && buckets == old(buckets)[open := old(buckets)[open][1..]]
      ensures |old(buckets)[open]| == 1 ==>
        open < |slots| && slots[open].prev == Entry(id) && LastGone(Memory(), buckets, open, id)
    {
      assert |buckets| == NUM_SLOTS;
      hide Ring, WF, Distinct;
      var e := entries.objs[id].elem;
      next, task, expiration := e.next, e.task, e.expiration;
      ExpireRing(Memory(), buckets, open, id);
      InfosUpdate(entries.Map(), id, TimerEntry(Nil, Nil, e.task, None));
      entries.Set(id, TimerEntry(Nil, Nil, e.task, None));
      buckets := buckets[open := buckets[open][1..]];
    }

    // An expired entry is put back if its stored expiration says so, or else its task is run.
    method PutBackOrRun(id: nat, task: TaskId, expiration: Option<nat>, v: Visit, ghost open: nat, ghost r: Outcome)
      returns (exit: bool, ran: seq<Run>)
      requires ValidOpen(open) && WF(Abs()) && id in Memory().entries && !Placed(buckets, id)
      requires Ring(Detach(Memory(), id), buckets, open)
      requires Expected(Abs(), id, Info(task, expiration), v, open, r)
      modifies this, entries
      ensures ValidOpen(open) && r == Outcome(Abs(), exit, ran)
    {
      hide ApplyAll, RoundToSecs, SlotAt, S.Place, Distinct;
      assert |buckets| == NUM_SLOTS;
      var now := v.now;
      if expiration.Some? && expiration.value >= now + SEC {
        Place(now, expiration.value - now, expiration, id, open);
        exit, ran := false, [];
      } else {
        RunTask(v.ops, open);
        exit, ran := v.exit, [Run(id, task)];
      }
    }

    // One round of the loop in `tick`.
    method VisitEntry(id: nat, env: Env, exit: bool, ghost open: nat) returns (next: Token, exit': bool, ran: seq<Run>)
      requires ValidOpen(open) && WF(Abs()) && open == After(currentSlot)
      requires buckets[open] != [] && buckets[open][0] == id && VisitFirst(Abs(), open, env, exit).Some?
      modifies this, entries
      ensures ValidOpen(open) && WF(Abs())
      ensures VisitFirst(old(Abs()), open, env, exit) == Some(Outcome(Abs(), exit', ran))
      ensures |buckets| == NUM_SLOTS && next == Head(buckets[open], Slot(open))
    {
      hide VisitFirst, ApplyAll, Take, Ring, Distinct, WF;
      VisitCases(Abs(), open, env, exit);
      ghost var a := Abs();
      var task, expiration;
      next, task, expiration := Expire(id, open);
      exit', ran := exit, [];
      if !exit {
        VisitIs(a, open, env);
        exit', ran := PutBackOrRun(id, task, expiration, env.at(id), open, VisitFirst(a, open, env, false).value);
      }
      AbsWF(open);
      RingSize(Memory(), buckets, open);
    }

    // Closes the drained bucket and moves the wheel onto the next slot.
    method MoveTo(nextSlot: nat, ghost open: nat)
      requires ValidOpen(open) && open == nextSlot == After(currentSlot) && buckets[open] == []
      modifies this, entries
      ensures Valid() && Abs() == old(Abs()).(current := nextSlot)
    {
      CloseRing(Memory(), buckets, open);
      assert Before(open) == currentSlot;
      Relink(Slot(currentSlot), Slot(nextSlot), Slot(nextSlot), Slot(currentSlot));
      currentSlot := nextSlot;
    }

    // ---- ticks that lose a timer, in the same steps ----

    // The end of a tick in which entry `id` was put into the bucket after the last visit: the wheel moves on, all
    // buckets are linked as they were, and the entry is lost.
    method MoveOn(nextSlot: nat, ghost id: nat, ghost open: nat)
      requires Cut(id, open) && open == nextSlot == After(currentSlot)
      modifies this, entries
      ensures entries.Valid() && currentSlot == open && buckets == old(buckets)
      ensures AllLinked(Memory(), buckets, NONE) && Lost(Memory(), buckets, id)
    {
      CloseLost(Memory(), buckets, open, id);
      assert Before(open) == currentSlot;
      Relink(Slot(currentSlot), Slot(nextSlot), Slot(nextSlot), Slot(currentSlot));
      currentSlot := nextSlot;
    }

    // The last visit of a tick is that of a timer that rounds to one second (see VisitLoses).
    method LoseByRequeue(id: nat, now: nat, ghost open: nat)
      requires ValidOpen(open) && WF(Abs()) && open == After(currentSlot) && buckets[open] == [id] && id in Abs().timers
      requires Rejoins(Abs().timers[id], now)
      modifies this, entries
      ensures entries.Valid() && currentSlot == open && buckets == old(buckets)[open := []]
      ensures AllLinked(Memory(), buckets, NONE) && Lost(Memory(), buckets, id)
    {
      assert |buckets| == NUM_SLOTS && [id][1..] == [];
      RejoinsOpen(currentSlot, Abs().timers[id], now);
      hide Ring, LastGone, AllLinked, Lost, WF;
      var next, task, expiration := Expire(id, open);
      Place(now, expiration.value - now, expiration, id, open);
      MoveOn(After(currentSlot), id, open);
    }

    // The timer of the entry visited last is dropped: its index is the next one to be used.
    method DropFirst(first: nat, ghost open: nat)
      requires ValidOpen(open) && open == After(currentSlot) && |buckets| == NUM_SLOTS && buckets[open] == []
      requires first in Abs().timers && !Placed(buckets, first) && first in Memory().entries
      requires Memory().entries[first].prev.Nil? && open < |slots| && slots[open].prev == Entry(first)
      modifies this, entries
      ensures ValidOpen(open) && currentSlot == old(currentSlot) && buckets == old(buckets)
      ensures NextId(Abs()) == first && Abs().free != [] && LastGone(Memory(), buckets, open, first)
    {
      hide Ring, Distinct;
      DropUnplaced(buckets, first);
      Cancel(first, open);
    }

    // The last entry of the bucket expires, and its timer is dropped, or not.
    method ExpireAndDrop(first: nat, drop: bool, ghost open: nat)
      requires ValidOpen(open) && WF(Abs()) && open == After(currentSlot) && buckets[open] == [first]
      requires first in Abs().timers && (Abs().free == [] ==> Abs().size < INVALID_INDEX)
      modifies this, entries
      ensures ValidOpen(open) && currentSlot == old(currentSlot) && buckets == old(buckets)[open := []]
      ensures LastGone(Memory(), buckets, open, NextId(Abs())) && (drop ==> NextId(Abs()) == first)
      ensures Abs().free == [] ==> Abs().size < INVALID_INDEX
    {
      assert |buckets| == NUM_SLOTS && [first][1..] == [];
      hide Ring, WF, Placed, Distinct, Infos, LastGone;
      var next, task, expiration := Expire(first, open);
      if drop { DropFirst(first, open); }
    }

    // The last visit of a tick runs a task that drops its timer, or not, and starts another one of one second.
    method LoseByCallback(first: nat, drop: bool, now: nat, dur: nat, task: TaskId, ghost open: nat) returns (id: nat)
      requires ValidOpen(open) && WF(Abs()) && open == After(currentSlot) && buckets[open] == [first]
      requires first in Abs().timers && dur / SEC == 1 && (Abs().free == [] ==> Abs().size < INVALID_INDEX)
      modifies this, entries
      ensures entries.Valid() && currentSlot == open && buckets == old(buckets)[open := []]
      ensures AllLinked(Memory(), buckets, NONE) && Lost(Memory(), buckets, id) && (drop ==> id == first)
    {
      ExpireAndDrop(first, drop, open);
      OneSecondTargets(Abs(), Op.Schedule(now, dur, task));
      hide Ring, LastGone, AllLinked, Lost;
      id := Schedule(now, dur, task, open);
      MoveOn(After(currentSlot), id, open);
    }

    // What the tick is to do.
    ghost function TickOf(env: Env): (r: Option<Outcome>)
      requires Valid()
      reads this, entries
    {
      AbsWF(NONE);
      S.Tick(Abs(), env)
    }

    method Tick(env: Env) returns (exit: bool, ran: seq<Run>)
      requires Valid() && TickOf(env).Some?
      modifies this, entries
      ensures Valid() && old(TickOf(env)) == Some(Outcome(Abs(), exit, ran))
    {
      assert |slots| == |buckets| == NUM_SLOTS;
      hide Ring, Midway, Drain, VisitFirst, WF, S.Tick, Distinct;
      exit, ran := false, [];
      ghost var a := Abs();
      ghost var open := After(currentSlot);
      AbsWF(NONE);
      OpenRing(Memory(), buckets, open);
      if buckets[open] == [] { NoVisits(a, env); }
      match slots[currentSlot].next {
        case Slot(index) =>
          currentSlot := index;
        case Entry(first) =>
          exit, ran := DrainAndMove(first, env, open);
      }
    }

    // A tick that comes to entries.
    method DrainAndMove(first: nat, env: Env, ghost open: nat) returns (exit: bool, ran: seq<Run>)
      requires ValidOpen(open) && WF(Abs()) && open == After(currentSlot) && |buckets| == NUM_SLOTS
      requires buckets[open] != [] && buckets[open][0] == first && S.Tick(Abs(), env).Some?
      modifies this, entries
      ensures Valid() && old(S.Tick(Abs(), env)) == Some(Outcome(Abs(), exit, ran))
    {
      hide Ring, Midway, Drain, VisitFirst, WF, S.Tick, Distinct;
      ghost var a := Abs();
      MidwayStart(a, open, env);
      var nextSlot;
      nextSlot, exit, ran := DrainBucket(first, env, open, a);
      TickIs(a, Abs(), env, exit, ran);
      MoveTo(nextSlot, open);
    }

    // The loop of `tick`, from the first entry of the bucket to the slot behind it.
    method DrainBucket(first: nat, env: Env, ghost open: nat, ghost a: Wheel)
      returns (nextSlot: nat, exit: bool, ran: seq<Run>)
      requires ValidOpen(open) && open == After(currentSlot) && Abs() == a && |buckets| == NUM_SLOTS
      requires buckets[open] != [] && buckets[open][0] == first && Midway(a, a, open, env, false, [], env.limit)
      modifies this, entries
      ensures ValidOpen(open) && nextSlot == open && |buckets| == NUM_SLOTS && buckets[open] == []
      ensures WF(a) && Drain(a, open, env, false, env.limit) == Some(Outcome(Abs(), exit, ran))
        && Abs().current == a.current
    {
      hide Ring, Midway, Drain, VisitFirst, WF;
      exit, ran := false, [];
      var id := first;
      ghost var n := env.limit;
      AbsWF(open);
      while true
        invariant ValidOpen(open) && currentSlot == a.current && WF(Abs()) && |buckets| == NUM_SLOTS
        invariant Midway(a, Abs(), open, env, exit, ran, n)
        invariant buckets[open] != [] && buckets[open][0] == id
        decreases n
      {
        MidwayStep(a, Abs(), open, env, exit, ran, n);
        n := n - 1;
        var next, r;
        next, exit, r := VisitEntry(id, env, exit, open);
        ran := ran + r;
        match next {
          case Entry(i) => id := i;
          case Slot(index) => nextSlot := index; break;
        }
      }
      MidwayEnd(a, Abs(), open, env, exit, ran, n);
    }
  }
}
