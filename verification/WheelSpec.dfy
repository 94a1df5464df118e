// What the timing wheel of src/reactor/wheel.rs means: buckets of timers, the slot the wheel stands on, and the
// effect of every operation on them. Times are nanoseconds.
module WheelSpec {
  import opened Bits
  import opened Slabs
  import opened WheelLinks

  const SEC: nat := 1_000_000_000
  const MASK: nat := NUM_SLOTS - 1

  datatype Info = Info(task: TaskId, expiration: Option<nat>)

  // `timers` holds the timers not yet cancelled by id. A timer in no bucket has expired. `free` and `size` say
  // which id the slab will give out next.
  datatype Wheel = Wheel(current: nat, buckets: Buckets, timers: map<nat, Info>, free: seq<nat>, size: nat)

  function NextId(a: Wheel): (r: nat) {
    if a.free == [] then a.size else a.free[0]
  }

  ghost predicate WF(a: Wheel) {
    && a.current < NUM_SLOTS && |a.buckets| == NUM_SLOTS && Distinct(a.buckets)
    && (forall s, id: nat :: 0 <= s < |a.buckets| && id in a.buckets[s] ==> id in a.timers)
    && (forall id: nat :: id in a.timers ==> id < a.size && id !in a.free)
    && (forall id: nat :: id in a.free ==> id < a.size)
    && NoDup(a.free)
  }

  // ---- durations ----

  function RoundToSecs(dur: nat): (r: nat) {
    if dur % SEC >= 500_000_000 then dur / SEC + 1 else dur / SEC
  }

  // The slot `timeout` places ahead.
  function SlotAt(current: nat, timeout: nat): (s: nat)
    requires current < NUM_SLOTS && timeout < NUM_SLOTS
    ensures s < NUM_SLOTS
  {
    if current + timeout < NUM_SLOTS then current + timeout else current + timeout - NUM_SLOTS
  }

  // The number of ticks until the wheel moves onto slot s.
  function TicksTo(current: nat, s: nat): (t: nat)
    requires current < NUM_SLOTS && s < NUM_SLOTS
    ensures 1 <= t <= NUM_SLOTS
  {
    if s > current then s - current else s + NUM_SLOTS - current
  }

  // ---- operations between two steps of the wheel ----

  datatype Op =
    | Schedule(now: nat, dur: nat, task: TaskId)
    | Reschedule(now: nat, dur: nat, id: nat)
    | Cancel(id: nat)

  function Target(a: Wheel, op: Op): (s: nat)
    requires a.current < NUM_SLOTS && !op.Cancel?
    ensures s < NUM_SLOTS
  {
    SlotAt(a.current, Min(if op.Schedule? then op.dur / SEC else RoundToSecs(op.dur), MASK))
  }

  predicate Names(op: Op, id: nat) {
    match op
    case Schedule(_, _, _) => false
    case Reschedule(_, _, i) => i == id
    case Cancel(i) => i == id
  }

  // What the source demands of a caller: while a tick drains the bucket `open`, the entry it will go to next may not
  // be taken away.
  ghost predicate Allowed(a: Wheel, op: Op, open: nat)
    requires a.current < NUM_SLOTS && |a.buckets| == NUM_SLOTS
  {
    && (op.Schedule? ==> (a.free == [] ==> a.size < INVALID_INDEX))
    && (op.Reschedule? ==> Placed(a.buckets, op.id))
    && (op.Cancel? ==> op.id in a.timers)
    && (open < NUM_SLOTS && a.buckets[open] != [] ==> !Names(op, a.buckets[open][0]))
  }

  // The operation puts a timer one tick ahead: into the very bucket, if a tick is draining it.
  predicate OneSecond(op: Op) {
    match op
    case Schedule(_, dur, _) => dur / SEC == 1
    case Reschedule(_, dur, _) => RoundToSecs(dur) == 1
    case Cancel(_) => false
  }

  lemma OneSecondTargets(a: Wheel, op: Op)
    requires a.current < NUM_SLOTS && !op.Cancel?
    ensures Target(a, op) == After(a.current) <==> OneSecond(op)
  {
  }

  // Nothing of the bucket is left to visit: the timer would be lost (see LostEntry). Otherwise it joins the bucket.
  ghost predicate Strands(a: Wheel, op: Op, open: nat)
    requires a.current < NUM_SLOTS && |a.buckets| == NUM_SLOTS
  {
    !op.Cancel? && open < NUM_SLOTS && Target(a, op) == open && a.buckets[open] == []
  }

  // The caller keeps to the rules, and the wheel survives it.
  ghost predicate Possible(a: Wheel, op: Op, open: nat)
    requires a.current < NUM_SLOTS && |a.buckets| == NUM_SLOTS
  {
    Allowed(a, op, open) && !Strands(a, op, open)
  }

  function Without(ids: seq<nat>, id: nat): (r: seq<nat>)
    ensures |r| <= |ids|
    ensures id !in ids ==> r == ids
  {
    if ids == [] then [] else if ids[0] == id then ids[1..] else [ids[0]] + Without(ids[1..], id)
  }

  function Drop(b: Buckets, id: nat): (c: Buckets)
    ensures |c| == |b| && forall s :: 0 <= s < |b| ==> c[s] == Without(b[s], id)
  {
    seq(|b|, s requires 0 <= s < |b| => Without(b[s], id))
  }

  function Put(a: Wheel, s: nat, id: nat): (r: Wheel)
    requires s < |a.buckets|
  {
    a.(buckets := a.buckets[s := a.buckets[s] + [id]])
  }

  // `reschedule_internal`: puts a timer that is in no bucket where it belongs. A stored expiration is replaced
  // only when the time left exceeds one turn of the wheel.
  function Place(a: Wheel, now: nat, dur: nat, exp: Option<nat>, id: nat): (r: Wheel)
    requires a.current < NUM_SLOTS && |a.buckets| == NUM_SLOTS && id in a.timers
  {
    var secs := RoundToSecs(dur);
    var timers :=
      if secs > MASK
      then a.timers[id := a.timers[id].(expiration := if exp.Some? then exp else Some(now + dur))]
      else a.timers;
    Put(a.(timers := timers), SlotAt(a.current, Min(secs, MASK)), id)
  }

  function Apply(a: Wheel, op: Op): (r: Wheel)
    requires a.current < NUM_SLOTS && |a.buckets| == NUM_SLOTS
    requires op.Reschedule? ==> op.id in a.timers
  {
    match op
    case Schedule(now, dur, task) =>
      Put(Add(a, Info(task, if dur / SEC > MASK then Some(now + dur) else None)), Target(a, op), NextId(a))
    case Reschedule(now, dur, id) => Place(a.(buckets := Drop(a.buckets, id)), now, dur, None, id)
    case Cancel(id) => a.(buckets := Drop(a.buckets, id), timers := a.timers - {id}, free := [id] + a.free)
  }

  // How many visits entries can take at most: an entry that stores an expiration may be put back once.
  function Weight(ids: seq<nat>, timers: map<nat, Info>): (w: nat)
    ensures w >= |ids|
  {
    if ids == [] then 0
    else (if ids[0] in timers && timers[ids[0]].expiration.Some? then 2 else 1) + Weight(ids[1..], timers)
  }

  lemma {:induction false} WeightSame(ids: seq<nat>, t: map<nat, Info>, u: map<nat, Info>)
    requires forall i: nat :: i in ids ==> (i in t <==> i in u) && (i in t ==> t[i].expiration == u[i].expiration)
    ensures Weight(ids, t) == Weight(ids, u)
  {
    if ids != [] {
      assert ids[0] in ids;
      WeightSame(ids[1..], t, u);
    }
  }

  lemma {:induction false} WeightWithout(ids: seq<nat>, id: nat, t: map<nat, Info>, u: map<nat, Info>)
    requires NoDup(ids)
    requires forall i: nat :: i in ids && i != id ==>
      (i in t <==> i in u) && (i in t ==> t[i].expiration == u[i].expiration)
    ensures Weight(Without(ids, id), u) <= Weight(ids, t)
  {
    if ids != [] {
      assert ids[0] in ids;
      if ids[0] == id {
        assert id !in ids[1..];
        WeightSame(ids[1..], t, u);
      } else {
        WeightWithout(ids[1..], id, t, u);
        assert Without(ids, id)[1..] == Without(ids[1..], id);
      }
    }
  }

  lemma {:induction false} WeightMore(ids: seq<nat>, id: nat, t: map<nat, Info>)
    ensures Weight(ids + [id], t) == Weight(ids, t) + Weight([id], t)
  {
    if ids == [] {
      assert [] + [id] == [id];
    } else {
      assert (ids + [id])[1..] == ids[1..] + [id];
      WeightMore(ids[1..], id, t);
    }
  }

  // An operation while a bucket drains leaves the first entry of that bucket where it is.
  ghost predicate Keeps(a: Wheel, b: Wheel, open: nat) {
    && WF(b) && b.current == a.current && |a.buckets| == |b.buckets|
    && (open < |a.buckets| ==> var x, y := a.buckets[open], b.buckets[open];
          (x == [] <==> y == []) && (x != [] ==> y[0] == x[0]))
  }

  lemma {:induction false} WithoutMembers(ids: seq<nat>, id: nat)
    requires NoDup(ids)
    ensures NoDup(Without(ids, id))
    ensures forall i: nat :: i in Without(ids, id) <==> i in ids && i != id
  {
    if ids != [] {
      var t := Without(ids[1..], id);
      WithoutMembers(ids[1..], id);
      assert forall i: nat :: i in ids <==> i == ids[0] || i in ids[1..];
      assert ids[0] !in ids[1..];
    }
  }

  lemma DropMembers(b: Buckets, id: nat)
    requires Distinct(b)
    ensures Distinct(Drop(b, id))
    ensures forall s, i: nat :: 0 <= s < |b| ==> (i in Drop(b, id)[s] <==> i in b[s] && i != id)
    ensures !Placed(Drop(b, id), id)
  {
    forall s | 0 <= s < |b|
      ensures NoDup(Drop(b, id)[s]) && forall i: nat :: i in Drop(b, id)[s] <==> i in b[s] && i != id
    {
      WithoutMembers(b[s], id);
    }
  }

  lemma PutWF(a: Wheel, s: nat, id: nat)
    requires WF(a) && s < NUM_SLOTS && id in a.timers && !Placed(a.buckets, id)
    ensures WF(Put(a, s, id))
    ensures forall r, i: nat :: 0 <= r < NUM_SLOTS ==>
      (i in Put(a, s, id).buckets[r] <==> i in a.buckets[r] || (r == s && i == id))
  {
    assert forall r :: 0 <= r < NUM_SLOTS ==> id !in a.buckets[r];
  }

  // Adding a timer under the next id.
  function Add(a: Wheel, info: Info): (r: Wheel) {
    a.(timers := a.timers[NextId(a) := info],
       free := if a.free == [] then [] else a.free[1..],
       size := if a.free == [] then a.size + 1 else a.size)
  }

  lemma AddWF(a: Wheel, info: Info)
    requires WF(a)
    ensures NextId(a) !in a.timers && !Placed(a.buckets, NextId(a)) && WF(Add(a, info))
  {
    var id := NextId(a);
    assert a.free != [] ==> a.free[0] in a.free;
    assert id !in a.timers && id < Add(a, info).size;
    assert forall i: nat :: i in Add(a, info).free <==> i in a.free && i != id;
  }

  lemma DropWF(a: Wheel, id: nat)
    requires WF(a) && id in a.timers
    ensures WF(a.(buckets := Drop(a.buckets, id)))
    ensures WF(a.(buckets := Drop(a.buckets, id), timers := a.timers - {id}, free := [id] + a.free))
    ensures !Placed(Drop(a.buckets, id), id)
  {
    DropMembers(a.buckets, id);
    assert forall i: nat :: i in [id] + a.free <==> i == id || i in a.free;
  }

  lemma ApplyKeeps(a: Wheel, op: Op, open: nat)
    requires WF(a) && Possible(a, op, open)
    ensures op.Reschedule? ==> op.id in a.timers
    ensures Keeps(a, Apply(a, op), open)
  {
    match op {
      case Schedule(now, dur, task) =>
        var info := Info(task, if dur / SEC > MASK then Some(now + dur) else None);
        AddWF(a, info);
        PutWF(Add(a, info), Target(a, op), NextId(a));
      case Reschedule(now, dur, id) =>
        DropWF(a, id);
        PlaceWF(a.(buckets := Drop(a.buckets, id)), now, dur, None, id);
      case Cancel(id) =>
        DropWF(a, id);
    }
  }

  // An operation that keeps out of the bucket that drains does not add to the visits it can take.
  lemma ApplyWeight(a: Wheel, op: Op, open: nat)
    requires WF(a) && Allowed(a, op, open) && open == After(a.current) && !OneSecond(op)
      && (op.Reschedule? ==> op.id in a.timers)
    ensures open < |Apply(a, op).buckets|
    ensures Weight(Apply(a, op).buckets[open], Apply(a, op).timers) <= Weight(a.buckets[open], a.timers)
  {
    var b, ids := Apply(a, op), a.buckets[open];
    if !op.Cancel? { OneSecondTargets(a, op); }
    match op {
      case Schedule(now, dur, task) =>
        AddWF(a, Info(task, None));
        WeightSame(ids, a.timers, b.timers);
      case Reschedule(_, _, id) =>
        WeightWithout(ids, id, a.timers, b.timers);
      case Cancel(id) =>
        WeightWithout(ids, id, a.timers, b.timers);
    }
  }

  // ---- what an operation leaves behind ----

  // The timers, when timer `id` has been rescheduled at `now`: 127.5 s round to 128 s.
  function Restored(timers: map<nat, Info>, id: nat, now: nat, dur: nat): (r: map<nat, Info>)
    requires id in timers
  {
    var expiration := if dur >= 127_500_000_000 then Some(now + dur) else timers[id].expiration;
    timers[id := Info(timers[id].task, expiration)]
  }

  // The timer is moved to the end of the bucket that the duration leads to, at most 127 places ahead. A duration that
  // rounds to 128 s or more stores its end, whatever was stored before; a shorter one leaves what was stored.
  lemma RescheduleStores(a: Wheel, now: nat, dur: nat, id: nat, open: nat)
    requires WF(a) && Possible(a, Reschedule(now, dur, id), open)
    ensures id in a.timers && (RoundToSecs(dur) >= 128 <==> dur >= 127_500_000_000)
    ensures var b := Apply(a, Reschedule(now, dur, id));
      var s := (a.current + Min(RoundToSecs(dur), 127)) % 128;
      && b.timers == Restored(a.timers, id, now, dur)
      && b.current == a.current && b.free == a.free && b.size == a.size && |b.buckets| == 128
      && b.buckets[s] == Without(a.buckets[s], id) + [id]
      && forall r :: 0 <= r < 128 && r != s ==> b.buckets[r] == Without(a.buckets[r], id)
  {
  }

  // A new timer of 128 s or more stores its end, and a shorter one nothing.
  lemma ScheduleStores(a: Wheel, now: nat, dur: nat, task: TaskId, open: nat)
    requires WF(a) && Possible(a, Schedule(now, dur, task), open)
    ensures var b, id := Apply(a, Schedule(now, dur, task)), if a.free == [] then a.size else a.free[0];
      var s := (a.current + Min(dur / SEC, 127)) % 128;
      && id !in a.timers
      && b.timers == a.timers[id := Info(task, if dur >= 128_000_000_000 then Some(now + dur) else None)]
      && (if a.free == [] then b.free == [] else a.free == [id] + b.free)
      && b.size == a.size + (if a.free == [] then 1 else 0)
      && b.current == a.current && |b.buckets| == 128
      && b.buckets[s] == a.buckets[s] + [id]
      && forall r :: 0 <= r < 128 && r != s ==> b.buckets[r] == a.buckets[r]
  {
    AddWF(a, Info(task, None));
  }

  lemma CancelRemoves(a: Wheel, id: nat, open: nat)
    requires WF(a) && Possible(a, Cancel(id), open)
    ensures var b := Apply(a, Cancel(id));
      && b.timers == a.timers - {id} && b.current == a.current && |b.buckets| == 128
      && NextId(b) == id
      && forall r :: 0 <= r < 128 ==> b.buckets[r] == Without(a.buckets[r], id) && id !in b.buckets[r]
  {
    DropMembers(a.buckets, id);
  }

  // ---- one tick ----

  // What happens when a timer is visited: the clock at that moment, what its task does to the wheel if it is
  // run, and whether the loop is to be left after it.
  datatype Visit = Visit(now: nat, ops: seq<Op>, exit: bool)

  // What happens on the visit of each timer, and how many visits of a tick are looked at: a tick may go on for ever.
  datatype Env = Env(at: nat -> Visit, limit: nat)

  datatype Run = Run(id: nat, task: TaskId)

  datatype Outcome = Outcome(wheel: Wheel, exit: bool, ran: seq<Run>)

  ghost function ApplyAll(a: Wheel, ops: seq<Op>, open: nat): (r: Option<Wheel>)
    requires WF(a)
    ensures r.Some? ==> Keeps(a, r.value, open)
    decreases |ops|
  {
    if ops == [] then Some(a)
    else if !Possible(a, ops[0], open) then None
    else
      ApplyKeeps(a, ops[0], open);
      ApplyAll(Apply(a, ops[0]), ops[1..], open)
  }

  function Take(a: Wheel, open: nat): (r: Wheel)
    requires open < |a.buckets| && a.buckets[open] != [] && a.buckets[open][0] in a.timers
  {
    var id := a.buckets[open][0];
    a.(buckets := a.buckets[open := a.buckets[open][1..]],
       timers := a.timers[id := a.timers[id].(expiration := None)])
  }

  lemma TakeWF(a: Wheel, open: nat)
    requires WF(a) && open < NUM_SLOTS && a.buckets[open] != []
    ensures a.buckets[open][0] in a.buckets[open] && a.buckets[open][0] in a.timers
    ensures WF(Take(a, open)) && !Placed(Take(a, open).buckets, a.buckets[open][0])
    ensures forall s, i: nat :: 0 <= s < NUM_SLOTS ==>
      (i in Take(a, open).buckets[s] <==> i in a.buckets[s] && i != a.buckets[open][0])
  {
    var id := a.buckets[open][0];
    assert id in a.buckets[open];
    assert forall i: nat :: i in a.buckets[open][1..] <==> i in a.buckets[open] && i != id;
  }

  // A timer is due unless its stored expiration is at least a second away.
  predicate Due(info: Info, now: nat) {
    info.expiration.None? || info.expiration.value < now + SEC
  }

  function RequeueSecs(info: Info, now: nat): (r: nat)
    requires !Due(info, now)
  {
    Min(RoundToSecs(info.expiration.value - now), MASK)
  }

  // The timer is not due, but so nearly that it rounds to one second: it belongs into the bucket being drained.
  predicate Rejoins(info: Info, now: nat) {
    !Due(info, now) && RoundToSecs(info.expiration.value - now) == 1
  }

  lemma RejoinsIff(info: Info, now: nat)
    ensures Rejoins(info, now) <==> info.expiration.Some? && now + SEC <= info.expiration.value < now + SEC + SEC / 2
  {
  }

  lemma RejoinsOpen(current: nat, info: Info, now: nat)
    requires current < NUM_SLOTS && !Due(info, now)
    ensures SlotAt(current, RequeueSecs(info, now)) == After(current) <==> Rejoins(info, now)
  {
  }

  // The visit of the first entry of the open bucket. Put back into that bucket, it is visited again by the same
  // tick as long as other entries are left. The result is None when the rules for callbacks are broken, or when
  // there are none left, so that the entry is lost.
  ghost function VisitFirst(a: Wheel, open: nat, env: Env, exit: bool): (r: Option<Outcome>)
    requires WF(a) && open == After(a.current) && a.buckets[open] != []
    ensures r.Some? ==> WF(r.value.wheel) && r.value.wheel.current == a.current
    ensures r.Some? ==> Head(r.value.wheel.buckets[open], Slot(open)) == Head(a.buckets[open][1..], Slot(open))
  {
    TakeWF(a, open);
    var id := a.buckets[open][0];
    var info, v, b := a.timers[id], env.at(id), Take(a, open);
    if exit then Some(Outcome(b, true, []))
    else if !Due(info, v.now) then
      var dur := info.expiration.value - v.now;
      if Rejoins(info, v.now) && b.buckets[open] == [] then None
      else
        PlaceWF(b, v.now, dur, info.expiration, id);
        Some(Outcome(Place(b, v.now, dur, info.expiration, id), false, []))
    else
      match ApplyAll(b, v.ops, open)
      case None => None
      case Some(c) => Some(Outcome(c, v.exit, [Run(id, info.task)]))
  }

  lemma TakeWeight(a: Wheel, open: nat)
    requires WF(a) && open == After(a.current) && a.buckets[open] != [] && a.buckets[open][0] in a.timers
    ensures open < |Take(a, open).buckets|
    ensures var w := Weight(Take(a, open).buckets[open], Take(a, open).timers);
      Weight(a.buckets[open], a.timers) == w + if a.timers[a.buckets[open][0]].expiration.Some? then 2 else 1
  {
    TakeWF(a, open);
    WeightSame(a.buckets[open][1..], a.timers, Take(a, open).timers);
  }

  lemma PlaceWeight(a: Wheel, open: nat, now: nat)
    requires WF(a) && open == After(a.current) && a.buckets[open] != [] && a.buckets[open][0] in a.timers
    requires !Due(a.timers[a.buckets[open][0]], now) && WF(Take(a, open))
    ensures var id, exp, b := a.buckets[open][0], a.timers[a.buckets[open][0]].expiration, Take(a, open);
      var c := Place(b, now, exp.value - now, exp, id);
      Weight(c.buckets[open], c.timers) < Weight(a.buckets[open], a.timers)
  {
    var id, exp, b := a.buckets[open][0], a.timers[a.buckets[open][0]].expiration, Take(a, open);
    var c := Place(b, now, exp.value - now, exp, id);
    RejoinsOpen(a.current, a.timers[id], now);
    TakeWF(a, open);
    TakeWeight(a, open);
    WeightSame(b.buckets[open], b.timers, c.timers);
    if Rejoins(a.timers[id], now) { WeightMore(b.buckets[open], id, c.timers); }
  }

  lemma PlaceWF(a: Wheel, now: nat, dur: nat, exp: Option<nat>, id: nat)
    requires WF(a) && id in a.timers && !Placed(a.buckets, id)
    ensures WF(Place(a, now, dur, exp, id))
    ensures var s := SlotAt(a.current, Min(RoundToSecs(dur), MASK));
      forall r, i: nat :: 0 <= r < NUM_SLOTS ==> (i in Place(a, now, dur, exp, id).buckets[r] <==>
        i in a.buckets[r] || (r == s && i == id))
  {
    PutWF(a, SlotAt(a.current, Min(RoundToSecs(dur), MASK)), id);
  }

  // At most n visits.
  ghost function Drain(a: Wheel, open: nat, env: Env, exit: bool, n: nat): (r: Option<Outcome>)
    requires WF(a) && open == After(a.current)
    ensures r.Some? ==> WF(r.value.wheel) && r.value.wheel.current == a.current && r.value.wheel.buckets[open] == []
    decreases n
  {
    if a.buckets[open] == [] then Some(Outcome(a, exit, []))
    else if n == 0 then None
    else
      match VisitFirst(a, open, env, exit)
      case None => None
      case Some(o) =>
        match Drain(o.wheel, open, env, o.exit, n - 1)
        case None => None
        case Some(p) => Some(Outcome(p.wheel, p.exit, o.ran + p.ran))
  }

  // The three ways a visit goes.
  lemma VisitCases(a: Wheel, open: nat, env: Env, exit: bool)
    requires WF(a) && open == After(a.current) && a.buckets[open] != []
    ensures a.buckets[open][0] in a.timers && WF(Take(a, open))
    ensures var id := a.buckets[open][0];
      var info, v, b := a.timers[id], env.at(id), Take(a, open);
      var r := VisitFirst(a, open, env, exit);
      if exit then r == Some(Outcome(b, true, []))
      else if Due(info, v.now) then
        var c := ApplyAll(b, v.ops, open);
        r == if c.None? then None else Some(Outcome(c.value, v.exit, [Run(id, info.task)]))
      else if Rejoins(info, v.now) && b.buckets[open] == [] then r == None
      else r == Some(Outcome(Place(b, v.now, info.expiration.value - v.now, info.expiration, id), false, []))
  {
    TakeWF(a, open);
  }

  // While `a` is being drained, `ran` has been run and what is left to do is to drain `b`.
  ghost predicate Midway(a: Wheel, b: Wheel, open: nat, env: Env, exit: bool, ran: seq<Run>, n: nat) {
    && WF(a) && WF(b) && open == After(a.current) && b.current == a.current
    && var p := Drain(b, open, env, exit, n);
    && p.Some?
    && Drain(a, open, env, false, env.limit) == Some(Outcome(p.value.wheel, p.value.exit, ran + p.value.ran))
  }

  lemma MidwayStart(a: Wheel, open: nat, env: Env)
    requires WF(a) && open == After(a.current) && Tick(a, env).Some?
    ensures Midway(a, a, open, env, false, [], env.limit)
  {
    var p := Drain(a, open, env, false, env.limit).value;
    assert [] + p.ran == p.ran;
  }

  lemma MidwayStep(a: Wheel, b: Wheel, open: nat, env: Env, exit: bool, ran: seq<Run>, n: nat)
    requires Midway(a, b, open, env, exit, ran, n) && b.buckets[open] != []
    ensures var o := VisitFirst(b, open, env, exit);
      n > 0 && o.Some? && Midway(a, o.value.wheel, open, env, o.value.exit, ran + o.value.ran, n - 1)
  {
    var o := VisitFirst(b, open, env, exit).value;
    var p := Drain(o.wheel, open, env, o.exit, n - 1).value;
    assert ran + (o.ran + p.ran) == (ran + o.ran) + p.ran;
  }

  lemma MidwayEnd(a: Wheel, b: Wheel, open: nat, env: Env, exit: bool, ran: seq<Run>, n: nat)
    requires Midway(a, b, open, env, exit, ran, n) && b.buckets[open] == []
    ensures Drain(a, open, env, false, env.limit) == Some(Outcome(b, exit, ran))
  {
    assert ran + [] == ran;
  }

  // `tick`: drains the bucket in front of the next slot, then moves onto that slot.
  ghost function Tick(a: Wheel, env: Env): (r: Option<Outcome>)
    requires WF(a)
    ensures r.Some? ==> WF(r.value.wheel)
  {
    match Drain(a, After(a.current), env, false, env.limit)
    case None => None
    case Some(o) => Some(o.(wheel := o.wheel.(current := After(a.current))))
  }

  lemma NoVisits(a: Wheel, env: Env)
    requires WF(a) && a.buckets[After(a.current)] == []
    ensures Tick(a, env) == Some(Outcome(a.(current := After(a.current)), false, []))
  {
  }

  lemma TickIs(a: Wheel, b: Wheel, env: Env, exit: bool, ran: seq<Run>)
    requires WF(a) && Drain(a, After(a.current), env, false, env.limit) == Some(Outcome(b, exit, ran))
    ensures Tick(a, env) == Some(Outcome(b.(current := After(a.current)), exit, ran))
  {
  }
}
