// One tick of the timing wheel: which timers it runs, in which order, and when it loses one.
module WheelTicks {
  import opened Slabs
  import opened WheelLinks
  import opened WheelSpec

  function CountRuns(ran: seq<Run>, id: nat): (r: nat) {
    if ran == [] then 0 else (if ran[0].id == id then 1 else 0) + CountRuns(ran[1..], id)
  }

  lemma {:induction false} CountConcat(p: seq<Run>, q: seq<Run>, id: nat)
    ensures CountRuns(p + q, id) == CountRuns(p, id) + CountRuns(q, id)
  {
    if p == [] {
      assert p + q == q;
    } else {
      CountConcat(p[1..], q, id);
      assert (p + q)[1..] == p[1..] + q;
    }
  }

  predicate Untouched(ops: seq<Op>, id: nat) {
    forall i :: 0 <= i < |ops| ==> !Names(ops[i], id)
  }

  // Timer `id` is where it was, as it was.
  ghost predicate SamePlace(a: Wheel, b: Wheel, id: nat) {
    && id in a.timers && id in b.timers && a.timers[id] == b.timers[id]
    && |a.buckets| == |b.buckets|
    && (forall s :: 0 <= s < |a.buckets| ==> (id in b.buckets[s] <==> id in a.buckets[s]))
  }

  lemma ApplyFrame(a: Wheel, op: Op, open: nat, id: nat)
    requires WF(a) && Possible(a, op, open) && !Names(op, id) && id in a.timers
    ensures op.Reschedule? ==> op.id in a.timers
    ensures SamePlace(a, Apply(a, op), id)
  {
    match op {
      case Schedule(now, dur, task) =>
        AddWF(a, Info(task, None));
      case Reschedule(_, _, i) =>
        DropMembers(a.buckets, i);
      case Cancel(i) =>
        DropMembers(a.buckets, i);
    }
  }

  lemma {:induction false} ApplyAllFrame(a: Wheel, ops: seq<Op>, open: nat, id: nat)
    requires WF(a) && ApplyAll(a, ops, open).Some? && Untouched(ops, id) && id in a.timers
    ensures SamePlace(a, ApplyAll(a, ops, open).value, id)
    decreases |ops|
  {
    if ops != [] {
      ApplyKeeps(a, ops[0], open);
      ApplyFrame(a, ops[0], open, id);
      ApplyAllFrame(Apply(a, ops[0]), ops[1..], open, id);
    }
  }

  // An operation of one second puts its timer into the bucket that is being drained. No other lets anything enter it.
  lemma ApplyOpen(a: Wheel, op: Op, open: nat)
    requires WF(a) && Possible(a, op, open) && open == After(a.current) && !OneSecond(op)
    ensures op.Reschedule? ==> op.id in a.timers
    ensures |Apply(a, op).buckets| == NUM_SLOTS
    ensures forall id: nat :: id in Apply(a, op).buckets[open] ==> id in a.buckets[open]
    ensures (forall id: nat :: id in a.buckets[open] ==> !Names(op, id)) ==>
      Apply(a, op).buckets[open] == a.buckets[open]
  {
    if !op.Schedule? { DropMembers(a.buckets, op.id); }
    if !op.Cancel? { OneSecondTargets(a, op); }
  }

  predicate NoneJoins(ops: seq<Op>) {
    forall i :: 0 <= i < |ops| ==> !OneSecond(ops[i])
  }

  lemma {:induction false} ApplyAllOpen(a: Wheel, ops: seq<Op>, open: nat)
    requires WF(a) && open == After(a.current) && ApplyAll(a, ops, open).Some? && NoneJoins(ops)
    ensures var b := ApplyAll(a, ops, open).value;
      && |b.buckets| == NUM_SLOTS
      && (forall id: nat :: id in b.buckets[open] ==> id in a.buckets[open])
      && ((forall id: nat :: id in a.buckets[open] ==> Untouched(ops, id)) ==> b.buckets[open] == a.buckets[open])
    decreases |ops|
  {
    if ops != [] {
      ApplyKeeps(a, ops[0], open);
      ApplyOpen(a, ops[0], open);
      ApplyAllOpen(Apply(a, ops[0]), ops[1..], open);
      if forall id: nat :: id in a.buckets[open] ==> Untouched(ops, id) {
        forall id: nat | id in a.buckets[open] ensures !Names(ops[0], id) && Untouched(ops[1..], id) {
          assert Untouched(ops, id);
        }
      }
    }
  }

  // ---- what one tick runs ----

  // No callback puts a timer into the bucket that is being drained.
  ghost predicate Calm(env: Env) {
    forall e: nat :: NoneJoins(env.at(e).ops)
  }

  // No callback puts this timer there.
  ghost predicate StaysOut(a: Wheel, env: Env, id: nat) {
    Calm(env) || (id in a.timers && EnvSpares(env, id))
  }

  // The first visit, and the rest of the tick.
  lemma DrainStep(a: Wheel, open: nat, env: Env, exit: bool, n: nat)
    requires WF(a) && open == After(a.current)
    ensures open < |a.buckets| && forall id: nat :: id in a.buckets[open] ==> id in a.timers
    ensures a.buckets[open] == [] ==> Drain(a, open, env, exit, n) == Some(Outcome(a, exit, []))
    ensures a.buckets[open] != [] && (n == 0 || VisitFirst(a, open, env, exit).None?) ==>
      Drain(a, open, env, exit, n) == None
    ensures a.buckets[open] != [] && n > 0 && VisitFirst(a, open, env, exit).Some? ==>
      var o := VisitFirst(a, open, env, exit).value;
      var p := Drain(o.wheel, open, env, o.exit, n - 1);
      Drain(a, open, env, exit, n)
        == if p.None? then None else Some(Outcome(p.value.wheel, p.value.exit, o.ran + p.value.ran))
  {
  }

  lemma VisitOpen(a: Wheel, open: nat, env: Env, exit: bool, id: nat)
    requires WF(a) && open == After(a.current) && a.buckets[open] != [] && VisitFirst(a, open, env, exit).Some?
    requires StaysOut(a, env, id)
    ensures var o := VisitFirst(a, open, env, exit).value; var e := a.buckets[open][0];
      && (id in o.wheel.buckets[open] ==> id in a.buckets[open]) && StaysOut(o.wheel, env, id)
      && (o.ran == [] || (e in a.timers && o.ran == [Run(e, a.timers[e].task)]
        && (e == id ==> id !in o.wheel.buckets[open])))
  {
    VisitCases(a, open, env, exit);
    TakeWF(a, open);
    var e := a.buckets[open][0];
    var info, v, b := a.timers[e], env.at(e), Take(a, open);
    if !exit {
      if !Due(info, v.now) {
        PlaceWF(b, v.now, info.expiration.value - v.now, info.expiration, e);
      } else if Calm(env) {
        ApplyAllOpen(b, v.ops, open);
      } else {
        ApplyAllFrame(b, v.ops, open, id);
      }
    }
  }

  // A tick runs only timers of the bucket it drains, and no timer twice. Only a timer that a callback starts or
  // restarts for one second is an exception (see OneSecondInCallback).
  lemma {:induction false} RunsFromBucket(a: Wheel, open: nat, env: Env, exit: bool, n: nat, id: nat)
    requires WF(a) && open == After(a.current) && Drain(a, open, env, exit, n).Some? && StaysOut(a, env, id)
    ensures CountRuns(Drain(a, open, env, exit, n).value.ran, id) <= if id in a.buckets[open] then 1 else 0
    decreases n
  {
    hide WF, Drain, VisitFirst, Calm, StaysOut;
    DrainStep(a, open, env, exit, n);
    if a.buckets[open] != [] {
      VisitOpen(a, open, env, exit, id);
      var o := VisitFirst(a, open, env, exit).value;
      RunsFromBucket(o.wheel, open, env, o.exit, n - 1, id);
      CountConcat(o.ran, Drain(o.wheel, open, env, o.exit, n - 1).value.ran, id);
    }
  }

  ghost predicate EnvSpares(env: Env, id: nat) {
    forall e: nat :: Untouched(env.at(e).ops, id)
  }

  ghost predicate NoExit(env: Env) {
    forall e: nat :: !env.at(e).exit
  }

  // A timer outside the bucket that is drained stays where it is.
  lemma {:induction false} DrainFrame(a: Wheel, open: nat, env: Env, exit: bool, n: nat, id: nat)
    requires WF(a) && open == After(a.current) && Drain(a, open, env, exit, n).Some? && EnvSpares(env, id)
    requires id in a.timers && id !in a.buckets[open]
    ensures SamePlace(a, Drain(a, open, env, exit, n).value.wheel, id)
    decreases n
  {
    hide WF, Drain, VisitFirst, EnvSpares;
    DrainStep(a, open, env, exit, n);
    if a.buckets[open] != [] {
      VisitFrame(a, open, env, exit, id);
      var o := VisitFirst(a, open, env, exit).value;
      DrainFrame(o.wheel, open, env, o.exit, n - 1, id);
    }
  }

  lemma VisitFrame(a: Wheel, open: nat, env: Env, exit: bool, id: nat)
    requires WF(a) && open == After(a.current) && a.buckets[open] != [] && VisitFirst(a, open, env, exit).Some?
    requires EnvSpares(env, id) && id in a.timers && id != a.buckets[open][0]
    ensures SamePlace(a, VisitFirst(a, open, env, exit).value.wheel, id)
  {
    VisitCases(a, open, env, exit);
    TakeWF(a, open);
    var e := a.buckets[open][0];
    var info, v, b := a.timers[e], env.at(e), Take(a, open);
    if !exit {
      if Due(info, v.now) {
        ApplyAllFrame(b, v.ops, open, id);
      } else {
        PlaceWF(b, v.now, info.expiration.value - v.now, info.expiration, e);
      }
    }
  }

  // Where a timer of the drained bucket ends: run if it is due or rejoins the bucket, else put back further on.
  ghost predicate Visited(a: Wheel, o: Outcome, env: Env, id: nat)
    requires a.current < NUM_SLOTS && id in a.timers
  {
    var info, now := a.timers[id], env.at(id).now;
    if Due(info, now) || Rejoins(info, now) then
      CountRuns(o.ran, id) == 1 && id in o.wheel.timers && !Placed(o.wheel.buckets, id)
    else
      var s := SlotAt(a.current, RequeueSecs(info, now));
      && s < |o.wheel.buckets| && CountRuns(o.ran, id) == 0
      && id in o.wheel.timers && id in o.wheel.buckets[s]
      && o.wheel.timers[id].expiration ==
           (if RoundToSecs(info.expiration.value - now) > MASK then info.expiration else None)
  }

  lemma VisitSelf(a: Wheel, open: nat, env: Env)
    requires WF(a) && open == After(a.current) && a.buckets[open] != [] && VisitFirst(a, open, env, false).Some?
    requires EnvSpares(env, a.buckets[open][0])
    ensures a.buckets[open][0] in a.timers
    ensures var id, o := a.buckets[open][0], VisitFirst(a, open, env, false).value;
      if Rejoins(a.timers[id], env.at(id).now)
      then o.ran == [] && !o.exit && id in o.wheel.buckets[open] && id in o.wheel.timers
        && o.wheel.timers[id].expiration == None
      else Visited(a, o, env, id) && id !in o.wheel.buckets[open]
  {
    VisitCases(a, open, env, false);
    TakeWF(a, open);
    var id := a.buckets[open][0];
    if Due(a.timers[id], env.at(id).now) {
      ApplyAllFrame(Take(a, open), env.at(id).ops, open, id);
      VisitDue(a, open, env);
    } else {
      VisitNotDue(a, open, env.at(id).now);
    }
  }

  lemma VisitDue(a: Wheel, open: nat, env: Env)
    requires WF(a) && open == After(a.current) && a.buckets[open] != [] && a.buckets[open][0] in a.timers
    requires WF(Take(a, open)) && ApplyAll(Take(a, open), env.at(a.buckets[open][0]).ops, open).Some?
    requires SamePlace(Take(a, open), ApplyAll(Take(a, open), env.at(a.buckets[open][0]).ops, open).value,
      a.buckets[open][0])
    ensures var id, c := a.buckets[open][0], ApplyAll(Take(a, open), env.at(a.buckets[open][0]).ops, open).value;
      id in c.timers && !Placed(c.buckets, id) && CountRuns([Run(id, a.timers[id].task)], id) == 1
        && id !in c.buckets[open]
  {
    TakeWF(a, open);
    var id, c := a.buckets[open][0], ApplyAll(Take(a, open), env.at(a.buckets[open][0]).ops, open).value;
    assert forall s :: 0 <= s < NUM_SLOTS ==> id !in c.buckets[s];
  }

  lemma VisitNotDue(a: Wheel, open: nat, now: nat)
    requires WF(a) && open == After(a.current) && a.buckets[open] != [] && a.buckets[open][0] in a.timers
    requires !Due(a.timers[a.buckets[open][0]], now) && WF(Take(a, open))
    ensures var id, info := a.buckets[open][0], a.timers[a.buckets[open][0]];
      var c, s := Place(Take(a, open), now, info.expiration.value - now, info.expiration, id),
        SlotAt(a.current, RequeueSecs(info, now));
      && id in c.timers && |c.buckets| == NUM_SLOTS && id in c.buckets[s]
      && c.timers[id].expiration == (if RoundToSecs(info.expiration.value - now) > MASK then info.expiration else None)
      && (Rejoins(info, now) <==> s == open) && (s != open ==> id !in c.buckets[open])
  {
    TakeWF(a, open);
    var id, info := a.buckets[open][0], a.timers[a.buckets[open][0]];
    RejoinsOpen(a.current, info, now);
    PlaceWF(Take(a, open), now, info.expiration.value - now, info.expiration, id);
  }

  // A visit settles a timer of the bucket, or leaves it there.
  lemma VisitOne(a: Wheel, open: nat, env: Env, id: nat)
    requires WF(a) && open == After(a.current) && a.buckets[open] != [] && VisitFirst(a, open, env, false).Some?
    requires EnvSpares(env, id) && NoExit(env) && id in a.buckets[open] && id in a.timers
    ensures var o := VisitFirst(a, open, env, false).value; var info := a.timers[id];
      if id == a.buckets[open][0] && !Rejoins(info, env.at(id).now)
      then Visited(a, o, env, id) && id !in o.wheel.buckets[open] && id in o.wheel.timers
      else !o.exit && CountRuns(o.ran, id) == 0 && id in o.wheel.buckets[open] && Later(a, o.wheel, env, id)
  {
    VisitCases(a, open, env, false);
    VisitOpen(a, open, env, false, id);
    hide WF, VisitFirst, Distinct, Visited, EnvSpares;
    if id == a.buckets[open][0] {
      VisitSelf(a, open, env);
    } else {
      VisitFrame(a, open, env, false, id);
    }
  }

  // Timer `id` is as it was, or has rejoined the bucket.
  ghost predicate Later(a: Wheel, b: Wheel, env: Env, id: nat) {
    && id in a.timers && id in b.timers && b.current == a.current
    && (b.timers[id] == a.timers[id] || (Rejoins(a.timers[id], env.at(id).now) && b.timers[id].expiration == None))
  }

  lemma VisitedLater(a: Wheel, o: Outcome, p: Outcome, env: Env, id: nat)
    requires a.current < NUM_SLOTS && Later(a, o.wheel, env, id) && CountRuns(o.ran, id) == 0
      && Visited(o.wheel, p, env, id)
    ensures Visited(a, Outcome(p.wheel, p.exit, o.ran + p.ran), env, id)
  {
    CountConcat(o.ran, p.ran, id);
  }

  lemma VisitedStays(a: Wheel, o: Outcome, p: Outcome, env: Env, id: nat)
    requires a.current < NUM_SLOTS && id in a.timers && Visited(a, o, env, id)
    requires SamePlace(o.wheel, p.wheel, id) && CountRuns(p.ran, id) == 0
    requires Placed(p.wheel.buckets, id) ==> Placed(o.wheel.buckets, id)
    ensures Visited(a, Outcome(p.wheel, p.exit, o.ran + p.ran), env, id)
  {
    CountConcat(o.ran, p.ran, id);
  }

  lemma {:induction false} DrainVisits(a: Wheel, open: nat, env: Env, n: nat, id: nat)
    requires WF(a) && open == After(a.current) && EnvSpares(env, id) && NoExit(env)
    requires id in a.buckets[open]
    ensures id in a.timers
    ensures Drain(a, open, env, false, n).Some? ==> Visited(a, Drain(a, open, env, false, n).value, env, id)
    decreases n
  {
    hide WF, Drain, VisitFirst, EnvSpares, NoExit, Visited, Later, Rejoins, SamePlace;
    DrainStep(a, open, env, false, n);
    if Drain(a, open, env, false, n).Some? {
      VisitOne(a, open, env, id);
      var o := VisitFirst(a, open, env, false).value;
      var p := Drain(o.wheel, open, env, o.exit, n - 1).value;
      if id == a.buckets[open][0] && !Rejoins(a.timers[id], env.at(id).now) {
        DrainAfter(o.wheel, open, env, o.exit, n - 1, id);
        VisitedStays(a, o, p, env, id);
      } else {
        DrainVisits(o.wheel, open, env, n - 1, id);
        VisitedLater(a, o, p, env, id);
      }
    }
  }

  // What has left the bucket is not run by the rest of the tick.
  lemma DrainAfter(a: Wheel, open: nat, env: Env, exit: bool, n: nat, id: nat)
    requires WF(a) && open == After(a.current) && Drain(a, open, env, exit, n).Some? && EnvSpares(env, id)
    requires id in a.timers && id !in a.buckets[open]
    ensures var p := Drain(a, open, env, exit, n).value;
      SamePlace(a, p.wheel, id) && CountRuns(p.ran, id) == 0 && (Placed(p.wheel.buckets, id) ==> Placed(a.buckets, id))
  {
    DrainFrame(a, open, env, exit, n, id);
    RunsFromBucket(a, open, env, exit, n, id);
  }

  // ---- the order of a tick ----

  // The timers of a bucket that are due, and those that rejoin it, in list order.
  function DueRuns(ids: seq<nat>, timers: map<nat, Info>, env: Env): (r: seq<Run>) {
    if ids == [] then []
    else
      (if ids[0] in timers && Due(timers[ids[0]], env.at(ids[0]).now) then [Run(ids[0], timers[ids[0]].task)] else [])
      + DueRuns(ids[1..], timers, env)
  }

  function RejoinRuns(ids: seq<nat>, timers: map<nat, Info>, env: Env): (r: seq<Run>) {
    if ids == [] then []
    else
      (if ids[0] in timers && Rejoins(timers[ids[0]], env.at(ids[0]).now) then [Run(ids[0], timers[ids[0]].task)]
        else [])
      + RejoinRuns(ids[1..], timers, env)
  }

  lemma {:induction false} RunsSame(ids: seq<nat>, t: map<nat, Info>, u: map<nat, Info>, env: Env)
    requires forall i: nat :: i in ids ==> i in t && i in u && t[i] == u[i]
    ensures DueRuns(ids, t, env) == DueRuns(ids, u, env) && RejoinRuns(ids, t, env) == RejoinRuns(ids, u, env)
  {
    if ids != [] {
      assert ids[0] in ids;
      RunsSame(ids[1..], t, u, env);
    }
  }

  lemma {:induction false} RunsMore(ids: seq<nat>, id: nat, t: map<nat, Info>, env: Env)
    requires id in t && t[id].expiration.None?
    ensures DueRuns(ids + [id], t, env) == DueRuns(ids, t, env) + [Run(id, t[id].task)]
    ensures RejoinRuns(ids + [id], t, env) == RejoinRuns(ids, t, env)
  {
    if ids == [] {
      assert [] + [id] == [id];
    } else {
      assert (ids + [id])[1..] == ids[1..] + [id];
      RunsMore(ids[1..], id, t, env);
    }
  }

  ghost predicate SparesBucket(a: Wheel, open: nat, env: Env)
    requires open < |a.buckets|
  {
    forall id: nat :: id in a.buckets[open] ==> EnvSpares(env, id)
  }

  // With callbacks that leave the drained bucket alone, a tick runs exactly the due timers in list order, and
  // after them, in list order too, those it has put back into the bucket.
  lemma {:induction false} RunsInListOrder(a: Wheel, open: nat, env: Env, n: nat)
    requires WF(a) && open == After(a.current) && Drain(a, open, env, false, n).Some? && NoExit(env)
    requires Calm(env) && SparesBucket(a, open, env)
    ensures Drain(a, open, env, false, n).value.ran
      == DueRuns(a.buckets[open], a.timers, env) + RejoinRuns(a.buckets[open], a.timers, env)
    decreases n
  {
    hide WF, Drain, VisitFirst, Calm, SparesBucket, NoExit;
    DrainStep(a, open, env, false, n);
    if a.buckets[open] != [] {
      VisitInOrder(a, open, env);
      var o := VisitFirst(a, open, env, false).value;
      RunsInListOrder(o.wheel, open, env, n - 1);
    }
  }

  lemma VisitInOrder(a: Wheel, open: nat, env: Env)
    requires WF(a) && open == After(a.current) && a.buckets[open] != [] && VisitFirst(a, open, env, false).Some?
    requires Calm(env) && SparesBucket(a, open, env) && NoExit(env)
    ensures var o := VisitFirst(a, open, env, false).value;
      && !o.exit && SparesBucket(o.wheel, open, env)
      && o.ran + (DueRuns(o.wheel.buckets[open], o.wheel.timers, env) + RejoinRuns(o.wheel.buckets[open],
        o.wheel.timers, env))
         == DueRuns(a.buckets[open], a.timers, env) + RejoinRuns(a.buckets[open], a.timers, env)
  {
    var e, rest, o := a.buckets[open][0], a.buckets[open][1..], VisitFirst(a, open, env, false).value;
    assert a.buckets[open] == [e] + rest;
    hide VisitFirst, Distinct, DueRuns, RejoinRuns, Calm, EnvSpares;
    RestOfBucket(a, open, env);
    RestSame(a, open, env);
    VisitSelf(a, open, env);
    RunsStep(e, rest, a.timers, o.wheel.timers, env, o.wheel.buckets[open], o.ran);
  }

  // One visit accounts for the first entry: run, or put at the end, or neither.
  lemma RunsStep(e: nat, rest: seq<nat>, t: map<nat, Info>, u: map<nat, Info>, env: Env, left: seq<nat>, ran: seq<Run>)
    requires e in t && e in u && u[e].task == t[e].task
    requires forall i: nat :: i in rest ==> i in t && i in u && t[i] == u[i]
    requires left == if Rejoins(t[e], env.at(e).now) then rest + [e] else rest
    requires Rejoins(t[e], env.at(e).now) ==> u[e].expiration.None?
    requires ran == if Due(t[e], env.at(e).now) then [Run(e, t[e].task)] else []
    ensures ran + (DueRuns(left, u, env) + RejoinRuns(left, u, env)) ==
      DueRuns([e] + rest, t, env) + RejoinRuns([e] + rest, t, env)
  {
    var ids, x, d, j := [e] + rest, [Run(e, t[e].task)], DueRuns(rest, t, env), RejoinRuns(rest, t, env);
    assert ids[1..] == rest;
    assert DueRuns(ids, t, env) == (if Due(t[e], env.at(e).now) then x else []) + d;
    assert RejoinRuns(ids, t, env) == (if Rejoins(t[e], env.at(e).now) then x else []) + j;
    hide DueRuns, RejoinRuns;
    RunsSame(rest, t, u, env);
    if Rejoins(t[e], env.at(e).now) { RunsMore(rest, e, u, env); }
    Regrouped(x, d, j);
  }

  lemma Regrouped(x: seq<Run>, d: seq<Run>, j: seq<Run>)
    ensures x + (d + j) == (x + d) + ([] + j)
    ensures [] + ((d + x) + j) == ([] + d) + (x + j)
    ensures [] + (d + j) == ([] + d) + ([] + j)
  {
  }

  // The other timers of the bucket do not change.
  lemma RestSame(a: Wheel, open: nat, env: Env)
    requires WF(a) && open == After(a.current) && a.buckets[open] != [] && VisitFirst(a, open, env, false).Some?
    requires SparesBucket(a, open, env)
    ensures var o := VisitFirst(a, open, env, false).value;
      forall i: nat :: i in a.buckets[open][1..] ==>
        i in a.timers && i in o.wheel.timers && o.wheel.timers[i] == a.timers[i]
  {
    TakeWF(a, open);
    forall i: nat | i in a.buckets[open][1..]
      ensures i in a.timers && i in VisitFirst(a, open, env, false).value.wheel.timers
      ensures VisitFirst(a, open, env, false).value.wheel.timers[i] == a.timers[i]
    {
      assert i in a.buckets[open] && i != a.buckets[open][0];
      VisitFrame(a, open, env, false, i);
    }
  }

  lemma RestOfBucket(a: Wheel, open: nat, env: Env)
    requires WF(a) && open == After(a.current) && a.buckets[open] != [] && VisitFirst(a, open, env, false).Some?
    requires Calm(env) && SparesBucket(a, open, env)
    ensures a.buckets[open][0] in a.timers
    ensures var e, rest, o := a.buckets[open][0], a.buckets[open][1..], VisitFirst(a, open, env, false).value;
      && o.wheel.buckets[open] == (if Rejoins(a.timers[e], env.at(e).now) then rest + [e] else rest)
      && o.ran == (if Due(a.timers[e], env.at(e).now) then [Run(e, a.timers[e].task)] else [])
      && (e in o.wheel.timers && o.wheel.timers[e].task == a.timers[e].task)
      && (NoExit(env) ==> !o.exit)
  {
    VisitCases(a, open, env, false);
    TakeWF(a, open);
    var id := a.buckets[open][0];
    var info, v, b := a.timers[id], env.at(id), Take(a, open);
    if Due(info, v.now) {
      forall i: nat | i in b.buckets[open] ensures Untouched(v.ops, i) { assert EnvSpares(env, i); }
      ApplyAllOpen(b, v.ops, open);
      ApplyAllFrame(b, v.ops, open, id);
    } else {
      RejoinsOpen(a.current, info, v.now);
    }
  }

  // ---- when the loop is to be left ----

  // Once a task has said that the loop is to be left, the rest of the bucket expires without being run or put back.
  lemma {:induction false} AfterExit(a: Wheel, open: nat, env: Env, n: nat)
    requires WF(a) && open == After(a.current) && n >= |a.buckets[open]|
    ensures var p := Drain(a, open, env, true, n);
      && p.Some? && p.value.ran == [] && p.value.exit && p.value.wheel.timers.Keys == a.timers.Keys
      && p.value.wheel.buckets == a.buckets[open := []]
    decreases n
  {
    if a.buckets[open] == [] {
      assert a.buckets[open := []] == a.buckets;
    } else {
      DrainStep(a, open, env, true, n);
      VisitCases(a, open, env, true);
      var b := Take(a, open);
      AfterExit(b, open, env, n - 1);
      assert b.buckets[open := []] == a.buckets[open := []];
    }
  }

  // The task that says so is the last one that the tick runs, and the tick ends with that word exactly if there is one.
  lemma {:induction false} ExitIsLast(a: Wheel, open: nat, env: Env, exit: bool, n: nat)
    requires WF(a) && open == After(a.current) && Drain(a, open, env, exit, n).Some?
    ensures var p := Drain(a, open, env, exit, n).value; LastExits(env, exit, p.ran, p.exit)
    decreases n
  {
    hide WF, Drain, VisitFirst, LastExits;
    DrainStep(a, open, env, exit, n);
    if a.buckets[open] == [] {
      NoRunsExit(env, exit);
    } else {
      VisitExit(a, open, env, exit);
      var o := VisitFirst(a, open, env, exit).value;
      ExitIsLast(o.wheel, open, env, o.exit, n - 1);
      var q := Drain(o.wheel, open, env, o.exit, n - 1).value;
      JoinExit(env, exit, o.ran, o.exit, q.ran, q.exit);
    }
  }

  // From `exit` on `ran` is run, and `over` is the word then.
  predicate LastExits(env: Env, exit: bool, ran: seq<Run>, over: bool) {
    && (exit ==> ran == [] && over)
    && (!exit ==> (over <==> ran != [] && env.at(ran[|ran| - 1].id).exit))
    && forall i :: 0 <= i < |ran| - 1 ==> !env.at(ran[i].id).exit
  }

  lemma NoRunsExit(env: Env, exit: bool)
    ensures LastExits(env, exit, [], exit)
  {
  }

  lemma JoinExit(env: Env, exit: bool, p: seq<Run>, mid: bool, q: seq<Run>, over: bool)
    requires LastExits(env, exit, p, mid) && |p| <= 1 && LastExits(env, mid, q, over)
    ensures LastExits(env, exit, p + q, over)
  {
    assert forall i :: 0 <= i < |q| ==> (p + q)[|p| + i] == q[i];
    if q == [] { assert p + q == p; }
  }

  lemma VisitExit(a: Wheel, open: nat, env: Env, exit: bool)
    requires WF(a) && open == After(a.current) && a.buckets[open] != [] && VisitFirst(a, open, env, exit).Some?
    ensures var o := VisitFirst(a, open, env, exit).value; LastExits(env, exit, o.ran, o.exit) && |o.ran| <= 1
  {
    VisitCases(a, open, env, exit);
  }

  // ---- when a tick loses a timer ----

  // Whatever the callbacks do: a timer that is not due when it is visited is lost exactly if its stored expiration is
  // at least a second, but less than a second and a half, away and nothing else is left in the bucket. (What becomes
  // of it then, see LostEntry.)
  lemma VisitLoses(a: Wheel, open: nat, env: Env)
    requires WF(a) && open == After(a.current) && a.buckets[open] != []
    ensures a.buckets[open][0] in a.timers
    ensures var id := a.buckets[open][0];
      var info, now := a.timers[id], env.at(id).now;
      !Due(info, now) ==>
        (VisitFirst(a, open, env, false).None?
         <==> now + SEC <= info.expiration.value < now + SEC + SEC / 2 && a.buckets[open] == [id])
  {
    VisitCases(a, open, env, false);
    RejoinsIff(a.timers[a.buckets[open][0]], env.at(a.buckets[open][0]).now);
    assert Take(a, open).buckets[open] == a.buckets[open][1..];
  }

  // The tick comes to the last entry of the bucket, puts it back, and has nothing left to come to.
  ghost predicate Loses(ids: seq<nat>, timers: map<nat, Info>, env: Env)
    requires forall i :: 0 <= i < |ids| ==> ids[i] in timers
  {
    && ids != [] && Rejoins(timers[ids[|ids| - 1]], env.at(ids[|ids| - 1]).now)
    && forall i :: 0 <= i < |ids| - 1 ==> !Rejoins(timers[ids[i]], env.at(ids[i]).now)
  }

  // Every callback of the tick keeps to the rules, in the state it finds.
  ghost predicate Abides(a: Wheel, open: nat, env: Env, n: nat)
    requires WF(a) && open == After(a.current)
    decreases n
  {
    a.buckets[open] == [] || n == 0 || (
      && CallbackAbides(a, open, env)
      && (VisitFirst(a, open, env, false).Some? ==>
        Abides(VisitFirst(a, open, env, false).value.wheel, open, env, n - 1)))
  }

  ghost predicate CallbackAbides(a: Wheel, open: nat, env: Env)
    requires WF(a) && open == After(a.current) && a.buckets[open] != []
  {
    TakeWF(a, open);
    var id := a.buckets[open][0];
    Due(a.timers[id], env.at(id).now) ==> ApplyAll(Take(a, open), env.at(id).ops, open).Some?
  }

  lemma AbidingVisit(a: Wheel, open: nat, env: Env)
    requires WF(a) && open == After(a.current) && a.buckets[open] != [] && CallbackAbides(a, open, env) && NoExit(env)
    ensures a.buckets[open][0] in a.timers && (forall i: nat :: i in a.buckets[open] ==> i in a.timers)
    ensures VisitFirst(a, open, env, false).None? <==>
      |a.buckets[open]| == 1 && Rejoins(a.timers[a.buckets[open][0]], env.at(a.buckets[open][0]).now)
    ensures VisitFirst(a, open, env, false).Some? ==> !VisitFirst(a, open, env, false).value.exit
  {
    VisitCases(a, open, env, false);
    assert Take(a, open).buckets[open] == a.buckets[open][1..];
  }

  lemma {:induction false} ApplyAllWeight(a: Wheel, ops: seq<Op>, open: nat)
    requires WF(a) && open == After(a.current) && ApplyAll(a, ops, open).Some? && NoneJoins(ops)
    ensures var b := ApplyAll(a, ops, open).value;
      |b.buckets| == NUM_SLOTS && Weight(b.buckets[open], b.timers) <= Weight(a.buckets[open], a.timers)
    decreases |ops|
  {
    if ops != [] {
      ApplyKeeps(a, ops[0], open);
      ApplyWeight(a, ops[0], open);
      ApplyAllWeight(Apply(a, ops[0]), ops[1..], open);
    }
  }

  // A visit uses up some of the weight of the bucket: so many visits are enough for the tick.
  lemma VisitWeight(a: Wheel, open: nat, env: Env, exit: bool)
    requires WF(a) && open == After(a.current) && a.buckets[open] != [] && VisitFirst(a, open, env, exit).Some?
      && Calm(env)
    ensures var b := VisitFirst(a, open, env, exit).value.wheel;
      Weight(b.buckets[open], b.timers) < Weight(a.buckets[open], a.timers)
  {
    VisitCases(a, open, env, exit);
    TakeWeight(a, open);
    var id := a.buckets[open][0];
    if !exit {
      if Due(a.timers[id], env.at(id).now) {
        ApplyAllWeight(Take(a, open), env.at(id).ops, open);
      } else {
        PlaceWeight(a, open, env.at(id).now);
      }
    }
  }

  // With callbacks that keep to the rules and leave the bucket alone, a tick loses a timer exactly if the last entry of
  // its bucket, and no other, rounds to one second.
  lemma {:induction false} LostIff(a: Wheel, open: nat, env: Env, n: nat)
    requires WF(a) && open == After(a.current) && Abides(a, open, env, n) && NoExit(env)
    requires Calm(env) && SparesBucket(a, open, env) && n >= Weight(a.buckets[open], a.timers)
    ensures forall i :: 0 <= i < |a.buckets[open]| ==> a.buckets[open][i] in a.timers
    ensures Drain(a, open, env, false, n).None? <==> Loses(a.buckets[open], a.timers, env)
    decreases n
  {
    hide WF, Drain, VisitFirst, Calm, SparesBucket, NoExit, CallbackAbides;
    DrainStep(a, open, env, false, n);
    forall i | 0 <= i < |a.buckets[open]| ensures a.buckets[open][i] in a.timers {
      assert a.buckets[open][i] in a.buckets[open];
    }
    if a.buckets[open] != [] {
      LostStep(a, open, env);
      if VisitFirst(a, open, env, false).Some? {
        LostIff(VisitFirst(a, open, env, false).value.wheel, open, env, n - 1);
        LosesRest(a, open, env);
      }
    }
  }

  lemma LostStep(a: Wheel, open: nat, env: Env)
    requires WF(a) && open == After(a.current) && a.buckets[open] != []
    requires CallbackAbides(a, open, env) && NoExit(env) && Calm(env) && SparesBucket(a, open, env)
    ensures forall i :: 0 <= i < |a.buckets[open]| ==> a.buckets[open][i] in a.timers
    ensures VisitFirst(a, open, env, false).None? ==> Loses(a.buckets[open], a.timers, env)
    ensures VisitFirst(a, open, env, false).Some? ==>
      var o := VisitFirst(a, open, env, false).value;
      && !o.exit && SparesBucket(o.wheel, open, env)
      && Weight(o.wheel.buckets[open], o.wheel.timers) < Weight(a.buckets[open], a.timers)
  {
    var ids := a.buckets[open];
    hide VisitFirst, Distinct, Calm, Rejoins, EnvSpares;
    AbidingVisit(a, open, env);
    forall i | 0 <= i < |ids| ensures ids[i] in a.timers { assert ids[i] in ids; }
    if VisitFirst(a, open, env, false).Some? {
      RestOfBucket(a, open, env);
      VisitWeight(a, open, env, false);
    }
  }

  lemma LosesRest(a: Wheel, open: nat, env: Env)
    requires WF(a) && open == After(a.current) && a.buckets[open] != [] && VisitFirst(a, open, env, false).Some?
    requires CallbackAbides(a, open, env) && NoExit(env) && Calm(env) && SparesBucket(a, open, env)
    requires forall i :: 0 <= i < |a.buckets[open]| ==> a.buckets[open][i] in a.timers
    requires var o := VisitFirst(a, open, env, false).value;
      forall i :: 0 <= i < |o.wheel.buckets[open]| ==> o.wheel.buckets[open][i] in o.wheel.timers
    ensures var o := VisitFirst(a, open, env, false).value;
      Loses(o.wheel.buckets[open], o.wheel.timers, env) <==> Loses(a.buckets[open], a.timers, env)
  {
    hide VisitFirst, Distinct, Visited;
    var ids, e, rest := a.buckets[open], a.buckets[open][0], a.buckets[open][1..];
    var o := VisitFirst(a, open, env, false).value;
    var t, u := a.timers, o.wheel.timers;
    assert e in ids;
    RestOfBucket(a, open, env);
    RestSame(a, open, env);
    VisitSelf(a, open, env);
    AbidingVisit(a, open, env);
    forall i | 0 <= i < |rest| ensures rest[i] == ids[i + 1] && u[rest[i]] == t[rest[i]] { assert rest[i] in rest; }
    if Rejoins(t[e], env.at(e).now) {
      var js := o.wheel.buckets[open];
      assert js[|js| - 1] == e && !Rejoins(u[e], env.at(e).now);
      assert !Loses(ids, t, env) by { assert ids[0] == e && |ids| > 1; }
    }
  }
}
