// Runs of the timing wheel in which no tick loses a timer.
module WheelSafe {
  import opened Bits
  import opened Slabs
  import opened WheelLinks
  import opened WheelSpec
  import opened WheelTicks
  import opened WheelRuns

  // A timer c ticks away, if the last tick was at T, does not rejoin the bucket it is in when that is drained.
  predicate SafeAt(T: nat, c: nat, exp: Option<nat>) {
    exp.Some? ==> !(T + c * SEC + SEC <= exp.value < T + c * SEC + SEC + SEC / 2)
  }

  lemma SafeLater(T: nat, c: nat, exp: Option<nat>)
    requires c > 0
    ensures SafeAt(T, c, exp) <==> SafeAt(T + SEC, c - 1, exp)
  {
    assert T + c * SEC == (T + SEC) + (c - 1) * SEC;
  }

  ghost predicate SafeIn(a: Wheel, T: nat, s: nat, id: nat)
    requires a.current < NUM_SLOTS && s < NUM_SLOTS && id in a.timers
  {
    SafeAt(T, TicksTo(a.current, s), a.timers[id].expiration)
  }

  ghost predicate AllSafe(a: Wheel, T: nat)
    requires WF(a)
  {
    forall s, id: nat :: 0 <= s < NUM_SLOTS && id in a.buckets[s] ==> SafeIn(a, T, s, id)
  }

  // What `dur` may be, with ticks exactly one second apart. A duration of 128 s or more must not end from 128 s to
  // 128.5 s after the last tick. A timer with a stored expiration must not be rescheduled to where it would rejoin
  // its bucket. Nothing else is asked of operations between ticks; those of callbacks must not be of one second (see
  // NoneJoins).
  predicate SafeOp(a: Wheel, op: Op, T: nat)
    requires op.Reschedule? ==> op.id in a.timers
  {
    match op
    case Schedule(now, dur, _) => dur / SEC <= MASK || SafeAt(T, MASK, Some(now + dur))
    case Reschedule(now, dur, id) =>
      var secs := RoundToSecs(dur);
      if secs > MASK then SafeAt(T, MASK, Some(now + dur))
      else SafeAt(T, if secs == 0 then NUM_SLOTS else secs, a.timers[id].expiration)
    case Cancel(_) => true
  }

  lemma PutSafe(a: Wheel, s: nat, id: nat, T: nat)
    requires WF(a) && AllSafe(a, T) && s < NUM_SLOTS && id in a.timers && !Placed(a.buckets, id) && SafeIn(a, T, s, id)
    ensures WF(Put(a, s, id)) && AllSafe(Put(a, s, id), T)
  {
    PutWF(a, s, id);
    forall r, i: nat | 0 <= r < NUM_SLOTS && i in Put(a, s, id).buckets[r] ensures SafeIn(Put(a, s, id), T, r, i) {
      assert i in a.buckets[r] ==> SafeIn(a, T, r, i);
    }
  }

  // Nothing placed has changed.
  lemma SameSafe(a: Wheel, b: Wheel, T: nat)
    requires WF(a) && WF(b) && AllSafe(a, T) && b.current == a.current
    requires forall s, id: nat :: 0 <= s < NUM_SLOTS && id in b.buckets[s] ==> id in a.buckets[s]
    requires forall s, id: nat :: 0 <= s < NUM_SLOTS && id in b.buckets[s] ==>
      b.timers[id].expiration == a.timers[id].expiration
    ensures AllSafe(b, T)
  {
    forall s, id: nat | 0 <= s < NUM_SLOTS && id in b.buckets[s] ensures SafeIn(b, T, s, id) {
      assert id in a.buckets[s] && id in a.timers;
      assert SafeIn(a, T, s, id);
    }
  }

  lemma PlaceSafe(a: Wheel, now: nat, dur: nat, exp: Option<nat>, id: nat, T: nat)
    requires WF(a) && AllSafe(a, T) && id in a.timers && !Placed(a.buckets, id)
    requires var secs := RoundToSecs(dur); var c := if secs == 0 then NUM_SLOTS else Min(secs, MASK);
      SafeAt(T, c, if secs > MASK then (if exp.Some? then exp else Some(now + dur)) else a.timers[id].expiration)
    ensures WF(Place(a, now, dur, exp, id)) && AllSafe(Place(a, now, dur, exp, id), T)
  {
    var secs := RoundToSecs(dur);
    var timers :=
      if secs > MASK
      then a.timers[id := a.timers[id].(expiration := if exp.Some? then exp else Some(now + dur))]
      else a.timers;
    var b, s := a.(timers := timers), SlotAt(a.current, Min(secs, MASK));
    assert WF(b);
    forall r, i: nat | 0 <= r < NUM_SLOTS && i in b.buckets[r] ensures b.timers[i] == a.timers[i] { assert i != id; }
    SameSafe(a, b, T);
    assert TicksTo(a.current, s) == if secs == 0 then NUM_SLOTS else Min(secs, MASK);
    PutSafe(b, s, id, T);
  }

  lemma OpKeepsSafe(a: Wheel, op: Op, T: nat, open: nat)
    requires WF(a) && AllSafe(a, T) && Possible(a, op, open) && (op.Reschedule? ==> op.id in a.timers)
      && SafeOp(a, op, T)
    ensures WF(Apply(a, op)) && AllSafe(Apply(a, op), T)
  {
    ApplyKeeps(a, op, open);
    match op {
      case Schedule(now, dur, task) =>
        ScheduleSafe(a, now, dur, task, T);
      case Reschedule(now, dur, id) =>
        var b := a.(buckets := Drop(a.buckets, id));
        DropMembers(a.buckets, id);
        DropWF(a, id);
        SameSafe(a, b, T);
        PlaceSafe(b, now, dur, None, id, T);
      case Cancel(id) =>
        DropMembers(a.buckets, id);
        SameSafe(a, Apply(a, op), T);
    }
  }

  lemma ScheduleSafe(a: Wheel, now: nat, dur: nat, task: TaskId, T: nat)
    requires WF(a) && AllSafe(a, T) && SafeOp(a, Op.Schedule(now, dur, task), T)
    ensures WF(Apply(a, Op.Schedule(now, dur, task))) && AllSafe(Apply(a, Op.Schedule(now, dur, task)), T)
  {
    var exp := if dur / SEC > MASK then Some(now + dur) else None;
    var b, s := Add(a, Info(task, exp)), Target(a, Op.Schedule(now, dur, task));
    AddWF(a, Info(task, exp));
    SameSafe(a, b, T);
    assert exp.Some? ==> TicksTo(a.current, s) == MASK;
    PutSafe(b, s, NextId(a), T);
  }

  // Operations that are allowed and safe, each as the wheel stands when it comes to it.
  ghost predicate SafeOps(a: Wheel, ops: seq<Op>, T: nat, open: nat)
    requires WF(a)
    decreases |ops|
  {
    ops == [] || (
      && Allowed(a, ops[0], open) && (ops[0].Reschedule? ==> ops[0].id in a.timers) && SafeOp(a, ops[0], T)
      && WF(Apply(a, ops[0])) && SafeOps(Apply(a, ops[0]), ops[1..], T, open))
  }

  lemma {:induction false} OpsKeepSafe(a: Wheel, ops: seq<Op>, T: nat, open: nat)
    requires WF(a) && AllSafe(a, T) && SafeOps(a, ops, T, open)
    requires open == NONE || (open == After(a.current) && NoneJoins(ops))
    ensures ApplyAll(a, ops, open).Some? && AllSafe(ApplyAll(a, ops, open).value, T)
    decreases |ops|
  {
    if ops != [] {
      if !ops[0].Cancel? { OneSecondTargets(a, ops[0]); }
      ApplyKeeps(a, ops[0], open);
      OpKeepsSafe(a, ops[0], T, open);
      OpsKeepSafe(Apply(a, ops[0]), ops[1..], T, open);
    }
  }

  // ---- ticks ----

  ghost predicate OnTime(env: Env, now: nat) {
    forall e: nat :: env.at(e).now == now
  }

  // What every callback of the tick does is allowed and safe.
  ghost predicate SafeVisits(a: Wheel, env: Env, T: nat, exit: bool, n: nat)
    requires WF(a)
    decreases n
  {
    var open := After(a.current);
    a.buckets[open] == [] || n == 0 || (
      && SafeCallback(a, open, env, T, exit)
      && (VisitFirst(a, open, env, exit).Some? ==>
            var o := VisitFirst(a, open, env, exit).value;
            SafeVisits(o.wheel, env, T, o.exit, n - 1)))
  }

  ghost predicate SafeCallback(a: Wheel, open: nat, env: Env, T: nat, exit: bool)
    requires WF(a) && open == After(a.current) && a.buckets[open] != []
  {
    TakeWF(a, open);
    var id := a.buckets[open][0];
    !exit && Due(a.timers[id], env.at(id).now) ==> SafeOps(Take(a, open), env.at(id).ops, T, open)
  }

  lemma TakeSafe(a: Wheel, T: nat, open: nat)
    requires WF(a) && AllSafe(a, T) && open < NUM_SLOTS && a.buckets[open] != []
    ensures a.buckets[open][0] in a.timers && SafeIn(a, T, open, a.buckets[open][0])
    ensures WF(Take(a, open)) && AllSafe(Take(a, open), T) && Take(a, open).current == a.current
    ensures a.buckets[open][0] in Take(a, open).timers && !Placed(Take(a, open).buckets, a.buckets[open][0])
  {
    TakeWF(a, open);
    assert a.buckets[open][0] in a.buckets[open];
    SameSafe(a, Take(a, open), T);
  }

  lemma NoRejoining(current: nat, info: Info, T: nat)
    requires current < NUM_SLOTS && SafeAt(T, TicksTo(current, After(current)), info.expiration)
    ensures !Rejoins(info, T + SEC)
  {
    RejoinsIff(info, T + SEC);
    TicksAfter(current, After(current));
  }

  lemma CallbackKeepsSafe(a: Wheel, open: nat, env: Env, T: nat)
    requires WF(a) && open == After(a.current) && a.buckets[open] != [] && a.buckets[open][0] in a.timers
    requires WF(Take(a, open)) && AllSafe(Take(a, open), T) && Calm(env) && SafeCallback(a, open, env, T, false)
    requires Due(a.timers[a.buckets[open][0]], env.at(a.buckets[open][0]).now)
    ensures var r := ApplyAll(Take(a, open), env.at(a.buckets[open][0]).ops, open);
      r.Some? && AllSafe(r.value, T)
  {
    assert open < |a.buckets|;
    hide WF, AllSafe, SafeOps, ApplyAll;
    OpsKeepSafe(Take(a, open), env.at(a.buckets[open][0]).ops, T, open);
  }

  lemma VisitKeepsSafe(a: Wheel, open: nat, env: Env, T: nat, exit: bool)
    requires WF(a) && open == After(a.current) && AllSafe(a, T) && OnTime(env, T + SEC) && a.buckets[open] != []
    requires Calm(env) && SafeCallback(a, open, env, T, exit)
    ensures var r := VisitFirst(a, open, env, exit);
      r.Some? && AllSafe(r.value.wheel, T)
  {
    var V := T + SEC;
    assert open < |a.buckets| == NUM_SLOTS;
    hide WF, AllSafe, VisitFirst, Place, Take, ApplyAll, SafeCallback, Calm, SafeAt, Rejoins, After, Due;
    VisitCases(a, open, env, exit);
    TakeSafe(a, T, open);
    var id := a.buckets[open][0];
    assert env.at(id).now == V;
    if !exit {
      if Due(a.timers[id], V) {
        CallbackKeepsSafe(a, open, env, T);
      } else {
        NoRejoining(a.current, a.timers[id], T);
        RequeueSafe(a, Take(a, open), T, open);
      }
    }
  }

  // What is put back lies far enough from the end of its new bucket.
  lemma RequeueSafe(a: Wheel, b: Wheel, T: nat, open: nat)
    requires WF(a) && WF(b) && AllSafe(b, T) && open == After(a.current) && a.buckets[open] != [] && b == Take(a, open)
    requires a.buckets[open][0] in a.timers && a.buckets[open][0] in b.timers && !Placed(b.buckets, a.buckets[open][0])
    requires !Due(a.timers[a.buckets[open][0]], T + SEC) && !Rejoins(a.timers[a.buckets[open][0]], T + SEC)
    ensures var id, exp := a.buckets[open][0], a.timers[a.buckets[open][0]].expiration;
      var c := Place(b, T + SEC, exp.value - (T + SEC), exp, id);
      WF(c) && AllSafe(c, T)
  {
    var id, exp := a.buckets[open][0], a.timers[a.buckets[open][0]].expiration;
    RoundBounds(exp.value - (T + SEC));
    PlaceSafe(b, T + SEC, exp.value - (T + SEC), exp, id, T);
  }

  // As many visits as the tick can take.
  ghost predicate Enough(a: Wheel, n: nat)
    requires WF(a)
  {
    n >= Weight(a.buckets[After(a.current)], a.timers)
  }

  lemma {:induction false} DrainKeepsSafe(a: Wheel, open: nat, env: Env, T: nat, exit: bool, n: nat)
    requires WF(a) && open == After(a.current)
    requires AllSafe(a, T) && OnTime(env, T + SEC) && Calm(env) && SafeVisits(a, env, T, exit, n) && Enough(a, n)
    ensures var r := Drain(a, open, env, exit, n);
      r.Some? && AllSafe(r.value.wheel, T)
    decreases n
  {
    hide WF, Drain, AllSafe, VisitFirst, OnTime, Calm, SafeVisits, Enough;
    DrainStep(a, open, env, exit, n);
    if a.buckets[open] != [] {
      SafeVisitStep(a, open, env, T, exit, n);
      var o := VisitFirst(a, open, env, exit).value;
      DrainKeepsSafe(o.wheel, open, env, T, o.exit, n - 1);
    }
  }

  lemma SafeVisitStep(a: Wheel, open: nat, env: Env, T: nat, exit: bool, n: nat)
    requires WF(a) && open == After(a.current) && a.buckets[open] != []
    requires AllSafe(a, T) && OnTime(env, T + SEC) && Calm(env) && SafeVisits(a, env, T, exit, n) && Enough(a, n)
    ensures n > 0 && VisitFirst(a, open, env, exit).Some?
    ensures var o := VisitFirst(a, open, env, exit).value;
      AllSafe(o.wheel, T) && SafeVisits(o.wheel, env, T, o.exit, n - 1) && Enough(o.wheel, n - 1)
  {
    assert n > 0;
    hide AllSafe, VisitFirst, OnTime, Calm;
    VisitKeepsSafe(a, open, env, T, exit);
    VisitWeight(a, open, env, exit);
  }

  lemma TickKeepsSafe(a: Wheel, env: Env, T: nat)
    requires WF(a) && AllSafe(a, T) && OnTime(env, T + SEC) && Calm(env)
    requires SafeVisits(a, env, T, false, env.limit) && Enough(a, env.limit)
    ensures Tick(a, env).Some? && AllSafe(Tick(a, env).value.wheel, T + SEC)
  {
    DrainKeepsSafe(a, After(a.current), env, T, false, env.limit);
    hide Drain;
    var o, b := Drain(a, After(a.current), env, false, env.limit).value.wheel, Tick(a, env).value.wheel;
    forall s, id: nat | 0 <= s < NUM_SLOTS && id in b.buckets[s] ensures SafeIn(b, T + SEC, s, id) {
      assert SafeIn(o, T, s, id);
      TicksAfter(a.current, s);
      SafeLater(T, TicksTo(a.current, s), b.timers[id].expiration);
    }
  }

  // ---- runs ----

  // Rounds of safe operations, between the ticks and in callbacks, with ticks exactly one second apart and no operation
  // of one second in a callback.
  ghost predicate SafeRounds(a: Wheel, rounds: seq<Round>, T: nat)
    requires WF(a)
    decreases |rounds|
  {
    rounds == [] || (
      && SafeOps(a, rounds[0].ops, T, NONE) && OnTime(rounds[0].env, T + SEC) && Calm(rounds[0].env)
      && SafeCallbacks(a, rounds[0], T)
      && (RunRound(a, rounds[0]).Some? ==> SafeRounds(RunRound(a, rounds[0]).value.wheel, rounds[1..], T + SEC)))
  }

  ghost predicate SafeCallbacks(a: Wheel, r: Round, T: nat)
    requires WF(a)
  {
    var b := ApplyAll(a, r.ops, NONE);
    b.Some? ==> SafeVisits(b.value, r.env, T, false, r.env.limit) && Enough(b.value, r.env.limit)
  }

  // The wheel after a number of rounds.
  ghost function WheelAfter(a: Wheel, rounds: seq<Round>): (b: Option<Wheel>)
    requires WF(a)
    ensures b.Some? ==> WF(b.value)
    decreases |rounds|
  {
    if rounds == [] then Some(a)
    else if RunRound(a, rounds[0]).None? then None
    else WheelAfter(RunRound(a, rounds[0]).value.wheel, rounds[1..])
  }

  lemma RoundKeepsSafe(a: Wheel, r: Round, T: nat)
    requires WF(a) && AllSafe(a, T) && SafeOps(a, r.ops, T, NONE) && OnTime(r.env, T + SEC) && Calm(r.env)
      && SafeCallbacks(a, r, T)
    ensures RunRound(a, r).Some? && AllSafe(RunRound(a, r).value.wheel, T + SEC)
  {
    hide AllSafe, SafeVisits, OnTime, Calm;
    OpsKeepSafe(a, r.ops, T, NONE);
    TickKeepsSafe(ApplyAll(a, r.ops, NONE).value, r.env, T);
  }

  // From a wheel in which nothing is on the way to be lost, no tick of such rounds loses a timer: every one runs to its
  // end, and leaves such a wheel.
  lemma {:induction false} NothingIsLost(a: Wheel, rounds: seq<Round>, T: nat)
    requires WF(a) && AllSafe(a, T) && SafeRounds(a, rounds, T)
    ensures RunRounds(a, rounds).Some?
    ensures WheelAfter(a, rounds).Some? && AllSafe(WheelAfter(a, rounds).value, T + |rounds| * SEC)
    decreases |rounds|
  {
    hide WF, AllSafe, SafeVisits, OnTime, Calm, RunRound, SafeOps, SafeCallbacks;
    if rounds != [] {
      RoundKeepsSafe(a, rounds[0], T);
      NothingIsLost(RunRound(a, rounds[0]).value.wheel, rounds[1..], T + SEC);
      assert (T + SEC) + |rounds[1..]| * SEC == T + |rounds| * SEC;
    }
  }

  function NewWheel(): (a: Wheel)
    ensures WF(a)
  {
    Wheel(0, seq(NUM_SLOTS, _ => []), map[], [], 0)
  }

  // The wheel as it is made is such a wheel.
  lemma StartsSafe(T: nat)
    ensures AllSafe(NewWheel(), T)
  {
  }
}
