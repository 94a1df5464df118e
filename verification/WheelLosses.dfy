// How the timing wheel loses timers and how it loops, from the new wheel on; and the whole story of one sleep.
module WheelLosses {
  import opened Bits
  import opened Slabs
  import opened WheelLinks
  import opened WheelSpec
  import opened WheelTicks
  import opened WheelRuns
  import opened WheelSafe

  lemma ApplyOne(a: Wheel, p: Op, open: nat)
    requires WF(a)
    ensures ApplyAll(a, [p], open) == if Possible(a, p, open) then Some(Apply(a, p)) else None
  {
    assert [p][0] == p && [p][1..] == [];
    if Possible(a, p, open) { ApplyKeeps(a, p, open); }
  }

  lemma ApplyTwo(a: Wheel, p: Op, q: Op, open: nat)
    requires WF(a) && Possible(a, p, open)
    ensures WF(Apply(a, p)) && ApplyAll(a, [p, q], open) == ApplyAll(Apply(a, p), [q], open)
  {
    assert [p, q][0] == p && [p, q][1..] == [q];
    ApplyKeeps(a, p, open);
  }

  // ---- operations of one second in callbacks ----

  // While a tick drains its bucket, starting or restarting a timer for one second links it into that very bucket. If
  // nothing of the bucket is left, and only then, the timer is lost (see LostEntry). Otherwise the same tick comes to
  // it, and so runs a new timer at once.
  lemma OneSecondInCallback(a: Wheel, op: Op, open: nat, env: Env, n: nat)
    requires WF(a) && open == After(a.current) && Allowed(a, op, open) && OneSecond(op)
    ensures ApplyAll(a, [op], open).None? <==> a.buckets[open] == []
    ensures a.buckets[open] != [] ==>
      var b, id := Apply(a, op), if op.Schedule? then NextId(a) else op.id;
      && WF(b) && b.current == a.current && id in b.timers && id in b.buckets[open]
      && (EnvSpares(env, id) && NoExit(env) && Drain(b, open, env, false, n).Some? ==>
            && Visited(b, Drain(b, open, env, false, n).value, env, id)
            && (op.Schedule? ==> CountRuns(Drain(b, open, env, false, n).value.ran, id) == 1))
  {
    OneSecondTargets(a, op);
    assert [op][0] == op && [op][1..] == [];
    if a.buckets[open] != [] {
      ApplyKeeps(a, op, open);
      var b, id := Apply(a, op), if op.Schedule? then NextId(a) else op.id;
      assert id in b.buckets[open];
      if EnvSpares(env, id) && NoExit(env) { DrainVisits(b, open, env, n, id); }
    }
  }

  // A task that, when its timer runs it, drops the timer and sleeps for another second.
  function SleepAgain(id: nat, now: nat, task: TaskId): (ops: seq<Op>) {
    [Cancel(id), Schedule(now, SEC, task)]
  }

  // The index of the timer dropped is used again, and the new timer is in the bucket behind all others.
  lemma AgainJoins(a: Wheel, open: nat, id: nat, now: nat, task: TaskId)
    requires WF(a) && open == After(a.current) && id in a.timers && !Placed(a.buckets, id) && open < |a.buckets|
    ensures var r := ApplyAll(a, SleepAgain(id, now, task), open);
      if a.buckets[open] == [] then r == None
      else
        && r.Some? && r.value.current == a.current && open < |r.value.buckets|
        && r.value.buckets[open] == a.buckets[open] + [id]
        && r.value.timers == a.timers[id := Info(task, None)]
  {
    var b, q := Apply(a, Cancel(id)), Schedule(now, SEC, task);
    DropAbsent(a.buckets, id);
    ApplyTwo(a, Cancel(id), q, open);
    ApplyOne(b, q, open);
    OneSecondTargets(b, q);
    assert (a.timers - {id})[id := Info(task, None)] == a.timers[id := Info(task, None)];
  }

  lemma DropAbsent(b: Buckets, id: nat)
    requires !Placed(b, id)
    ensures Drop(b, id) == b
  {
    assert forall s :: 0 <= s < |b| ==> id !in b[s];
  }

  // Two such tasks in one bucket: the tick never ends. Each task finds the other's timer in the bucket, so that its own
  // joins it.
  ghost predicate Again(a: Wheel, env: Env, id: nat) {
    && id in a.timers && a.timers[id].expiration == None && !env.at(id).exit
    && exists now: nat, task: TaskId :: env.at(id).ops == SleepAgain(id, now, task)
  }

  lemma AgainVisit(a: Wheel, open: nat, env: Env, x: nat, y: nat)
    requires WF(a) && open == After(a.current) && a.buckets[open] == [x, y] && Again(a, env, x) && Again(a, env, y)
    ensures var r := VisitFirst(a, open, env, false);
      && r.Some? && !r.value.exit
      && r.value.wheel.buckets[open] == [y, x] && Again(r.value.wheel, env, x) && Again(r.value.wheel, env, y)
  {
    VisitCases(a, open, env, false);
    TakeWF(a, open);
    var now: nat, task: TaskId :| env.at(x).ops == SleepAgain(x, now, task);
    var b := Take(a, open);
    assert b.buckets[open] == [y];
    hide ApplyAll, WF, VisitFirst, Take, Distinct;
    AgainJoins(b, open, x, now, task);
    assert [y] + [x] == [y, x];
    assert x != y by { assert x in b.buckets[open] ==> Placed(b.buckets, x); }
  }

  lemma {:induction false} EndlessTick(a: Wheel, open: nat, env: Env, n: nat, x: nat, y: nat)
    requires WF(a) && open == After(a.current) && a.buckets[open] == [x, y] && Again(a, env, x) && Again(a, env, y)
    ensures Drain(a, open, env, false, n) == None
    decreases n
  {
    hide WF, Drain, VisitFirst, Again;
    DrainStep(a, open, env, false, n);
    AgainVisit(a, open, env, x, y);
    if n > 0 { EndlessTick(VisitFirst(a, open, env, false).value.wheel, open, env, n - 1, y, x); }
  }

  // ---- from the new wheel ----

  // The one round in which these operations come first.
  lemma FirstRoundIs(a: Wheel, ops: seq<Op>, b: Wheel, env: Env)
    requires WF(a) && WF(b) && ApplyAll(a, ops, NONE) == Some(b)
      && Drain(b, After(b.current), env, false, env.limit) == None
    ensures RunRounds(a, [Round(ops, env)]) == None
  {
    assert [Round(ops, env)][0] == Round(ops, env);
  }

  // `sleep(1)` and after it `sleep(1)`, with nothing else on the wheel: the second one is lost.
  lemma SleepAfterSleep(start: nat, task: TaskId, env: Env, now: nat)
    requires env.at(0).ops == SleepAgain(0, now, task)
    ensures RunRounds(NewWheel(), [Round([Schedule(start, SEC, task)], env)]) == None
  {
    var a, op := NewWheel(), Schedule(start, SEC, task);
    var b := Apply(a, op);
    ApplyOne(a, op, NONE);
    ApplyKeeps(a, op, NONE);
    assert b.buckets[1] == [0] && After(b.current) == 1 && 0 in b.timers && b.timers[0].expiration == None;
    LostAgain(b, 1, env, 0, now, task);
    FirstRoundIs(a, [op], b, env);
  }

  lemma LostAgain(a: Wheel, open: nat, env: Env, id: nat, now: nat, task: TaskId)
    requires WF(a) && open == After(a.current) && a.buckets[open] == [id]
    requires id in a.timers && a.timers[id].expiration == None && env.at(id).ops == SleepAgain(id, now, task)
    ensures Drain(a, open, env, false, env.limit) == None
  {
    DrainStep(a, open, env, false, env.limit);
    VisitCases(a, open, env, false);
    TakeWF(a, open);
    assert [id][1..] == [];
    hide ApplyAll, VisitFirst, Drain, WF;
    AgainJoins(Take(a, open), open, id, now, task);
  }

  // Two tasks that each sleep for a second again and again, begun in the same second: the first tick never ends.
  lemma SleepLoops(s: nat, t: nat, task1: TaskId, task2: TaskId, env: Env, now: nat)
    requires env.at(0).ops == SleepAgain(0, now, task1) && env.at(1).ops == SleepAgain(1, now, task2)
    requires !env.at(0).exit && !env.at(1).exit
    ensures RunRounds(NewWheel(), [Round([Schedule(s, SEC, task1), Schedule(t, SEC, task2)], env)]) == None
  {
    var a := TwoTimers(s, t, task1, task2);
    assert Again(a, env, 0) && Again(a, env, 1);
    hide WF, Apply, ApplyAll, Drain, Again;
    EndlessTick(a, 1, env, env.limit, 0, 1);
    FirstRoundIs(NewWheel(), [Schedule(s, SEC, task1), Schedule(t, SEC, task2)], a, env);
  }

  lemma TwoTimers(s: nat, t: nat, task1: TaskId, task2: TaskId) returns (a: Wheel)
    ensures ApplyAll(NewWheel(), [Schedule(s, SEC, task1), Schedule(t, SEC, task2)], NONE) == Some(a)
    ensures WF(a) && After(a.current) == 1 && a.buckets[1] == [0, 1]
    ensures a.timers == map[0 := Info(task1, None), 1 := Info(task2, None)]
  {
    var p, q := Schedule(s, SEC, task1), Schedule(t, SEC, task2);
    var b := Apply(NewWheel(), p);
    ApplyTwo(NewWheel(), p, q, NONE);
    ApplyOne(b, q, NONE);
    ApplyKeeps(b, q, NONE);
    a := Apply(b, q);
    assert b.buckets[1] == [0];
  }

  // Two timers of one task in the same bucket, as in `sleep(1).select(sleep(1))`: when the first runs the task, that
  // drops both. But the loop already has the second as the entry to go on to, and its place has been freed.
  lemma NextDropped(s: nat, t: nat, task: TaskId, env: Env) returns (a: Wheel)
    requires env.at(0).ops == [Cancel(0), Cancel(1)]
    ensures ApplyAll(NewWheel(), [Schedule(s, SEC, task), Schedule(t, SEC, task)], NONE) == Some(a)
    ensures WF(a) && After(a.current) == 1 && a.buckets[1] == [0, 1] && 0 in a.timers && Take(a, 1).buckets[1] == [1]
    ensures var b := Apply(Take(a, 1), Cancel(0));
      Allowed(Take(a, 1), Cancel(0), 1) && b.buckets[1] == [1] && 1 in b.timers && 1 !in Apply(b, Cancel(1)).timers
    ensures RunRounds(NewWheel(), [Round([Schedule(s, SEC, task), Schedule(t, SEC, task)], env)]) == None
  {
    var p, q := Schedule(s, SEC, task), Schedule(t, SEC, task);
    a := TwoTimers(s, t, task, task);
    DrainStep(a, 1, env, false, env.limit);
    VisitCases(a, 1, env, false);
    TakeWF(a, 1);
    var c := Take(a, 1);
    DropAbsent(c.buckets, 0);
    ApplyTwo(c, Cancel(0), Cancel(1), 1);
    ApplyOne(Apply(c, Cancel(0)), Cancel(1), 1);
    hide ApplyAll, Apply, WF, Take;
    FirstRoundIs(NewWheel(), [p, q], a, env);
  }

  // ---- one timer on its own ----

  // No timer but `id` is in a bucket.
  ghost predicate Alone(a: Wheel, id: nat) {
    forall s, i: nat :: 0 <= s < |a.buckets| && i in a.buckets[s] ==> i == id
  }

  // Nothing happens but the visits of the tick.
  ghost predicate Idle(r: Round) {
    r.ops == [] && forall e: nat :: r.env.at(e).ops == [] && !r.env.at(e).exit
  }

  lemma FirstTwo(ids: seq<nat>)
    requires NoDup(ids)
    ensures |ids| > 1 ==> ids[0] != ids[1]
  {
  }

  lemma AloneBucket(a: Wheel, id: nat, s: nat)
    requires WF(a) && Alone(a, id) && s < NUM_SLOTS
    ensures a.buckets[s] == if id in a.buckets[s] then [id] else []
  {
    var ids := a.buckets[s];
    assert NoDup(ids);
    FirstTwo(ids);
    forall i | 0 <= i < |ids| ensures ids[i] == id { assert ids[i] in a.buckets[s]; }
    assert |ids| == 1 ==> ids[0] == id && ids[0] in ids;
  }

  // A tick that does not come to the bucket only moves the wheel on.
  lemma IdleRound(a: Wheel, r: Round, id: nat, s: nat)
    requires WF(a) && Alone(a, id) && s < NUM_SLOTS && id in a.buckets[s] && s != After(a.current) && r.ops == []
    ensures RunRound(a, r) == Some(Outcome(a.(current := After(a.current)), false, []))
  {
    AloneBucket(a, id, After(a.current));
    assert id !in a.buckets[After(a.current)];
  }

  // A timer on its own is lost by the c-th tick, c ticks away, if that tick comes to it in the wrong half second. It
  // does not matter when the other ticks come.
  lemma {:induction false} LosesAt(a: Wheel, rounds: seq<Round>, id: nat, s: nat, E: nat)
    requires WF(a) && Alone(a, id) && s < NUM_SLOTS && id in a.buckets[s] && id in a.timers
      && a.timers[id].expiration == Some(E)
    requires TicksTo(a.current, s) <= |rounds| && forall i :: 0 <= i < |rounds| ==> Idle(rounds[i])
    requires var now := rounds[TicksTo(a.current, s) - 1].env.at(id).now; now + SEC <= E < now + SEC + SEC / 2
    ensures RunRounds(a, rounds) == None
    decreases |rounds|
  {
    var r := rounds[0];
    TicksAfter(a.current, s);
    if s == After(a.current) {
      AloneBucket(a, id, s);
      DrainStep(a, s, r.env, false, r.env.limit);
      VisitLoses(a, s, r.env);
    } else {
      IdleRound(a, r, id, s);
      LosesAt(a.(current := After(a.current)), rounds[1..], id, s, E);
    }
  }

  // Until then nothing happens.
  lemma {:induction false} EarlyRounds(a: Wheel, rounds: seq<Round>, id: nat, s: nat)
    requires WF(a) && Alone(a, id) && s < NUM_SLOTS && id in a.buckets[s]
    requires |rounds| < TicksTo(a.current, s) && forall i :: 0 <= i < |rounds| ==> Idle(rounds[i])
    ensures RunRounds(a, rounds).Some?
    decreases |rounds|
  {
    if rounds != [] {
      TicksAfter(a.current, s);
      IdleRound(a, rounds[0], id, s);
      EarlyRounds(a.(current := After(a.current)), rounds[1..], id, s);
    }
  }

  // The wheel with one timer, just started.
  lemma OneTimer(start: nat, dur: nat, task: TaskId) returns (a: Wheel)
    ensures a == Apply(NewWheel(), Schedule(start, dur, task)) && WF(a) && a.current == 0 && Alone(a, 0)
    ensures var s := Min(dur / SEC, MASK);
      a.buckets[s] == [0] && a.timers == map[0 := Info(task, if dur / SEC > MASK then Some(start + dur) else None)]
  {
    a := Apply(NewWheel(), Schedule(start, dur, task));
    ApplyKeeps(NewWheel(), Schedule(start, dur, task), NONE);
  }

  // A timer of 128 s or more is lost if the 127th tick comes to it from 1.5 s to 1 s before its end.
  lemma LongLost(start: nat, dur: nat, task: TaskId, rounds: seq<Round>)
    requires dur / SEC > MASK && |rounds| >= MASK && forall i :: 0 <= i < |rounds| ==> Idle(rounds[i])
    requires var now := rounds[MASK - 1].env.at(0).now; now + SEC <= start + dur < now + SEC + SEC / 2
    ensures WF(Apply(NewWheel(), Schedule(start, dur, task)))
    ensures RunRounds(Apply(NewWheel(), Schedule(start, dur, task)), rounds) == None
  {
    var a := OneTimer(start, dur, task);
    hide WF, Alone, Idle, RunRounds, Apply;
    assert TicksTo(a.current, MASK) == MASK;
    LosesAt(a, rounds, 0, MASK, start + dur);
  }

  // Ticks need not be that late: `sleep(129)` at 0 is lost if the 127th tick comes 0.6 s late.
  lemma LateTick(task: TaskId, rounds: seq<Round>)
    requires |rounds| >= MASK && forall i :: 0 <= i < |rounds| ==> Idle(rounds[i])
    requires rounds[MASK - 1].env.at(0).now == 127_600_000_000
    ensures WF(Apply(NewWheel(), Schedule(0, 129 * SEC, task)))
    ensures RunRounds(Apply(NewWheel(), Schedule(0, 129 * SEC, task)), rounds) == None
  {
    hide Idle, WF, Apply, RunRounds;
    LongLost(0, 129 * SEC, task, rounds);
  }

  // ---- reschedule ----

  lemma AloneReschedule(a: Wheel, now: nat, dur: nat, id: nat) returns (b: Wheel)
    requires WF(a) && Alone(a, id) && Placed(a.buckets, id) && 1 <= RoundToSecs(dur) <= MASK
    ensures id in a.timers && b == Apply(a, Reschedule(now, dur, id)) && WF(b) && Alone(b, id)
    ensures b.timers == a.timers && b.current == a.current && id in b.buckets[SlotAt(a.current, RoundToSecs(dur))]
  {
    ApplyKeeps(a, Reschedule(now, dur, id), NONE);
    DropMembers(a.buckets, id);
    b := Apply(a, Reschedule(now, dur, id));
  }

  // A timer that stores an expiration, rescheduled to a time from 1.5 s to 1 s before that, is lost.
  lemma RescheduleLost(a: Wheel, now: nat, dur: nat, id: nat, E: nat, rounds: seq<Round>)
    requires WF(a) && Alone(a, id) && Placed(a.buckets, id) && 1 <= RoundToSecs(dur) <= MASK
    requires id in a.timers && a.timers[id].expiration == Some(E)
    requires |rounds| >= RoundToSecs(dur) && forall i :: 0 <= i < |rounds| ==> Idle(rounds[i])
    requires var at := rounds[RoundToSecs(dur) - 1].env.at(id).now; at + SEC <= E < at + SEC + SEC / 2
    ensures WF(Apply(a, Reschedule(now, dur, id))) && RunRounds(Apply(a, Reschedule(now, dur, id)), rounds) == None
  {
    hide WF, Alone, Idle, RunRounds, Apply, RoundToSecs;
    var b := AloneReschedule(a, now, dur, id);
    TicksAt(a.current, RoundToSecs(dur));
    LosesAt(b, rounds, id, SlotAt(a.current, RoundToSecs(dur)), E);
  }

  // `sleep(130)` at 0, and 127 s from 2 s on instead: lost at 129 s, with ticks exactly one second apart.
  lemma SleepRescheduledLost(task: TaskId, p: Round, q: Round, rounds: seq<Round>) returns (a: Wheel, b: Wheel)
    requires p.ops == [] && q.ops == []
    requires |rounds| >= MASK && forall i :: 0 <= i < |rounds| ==> Idle(rounds[i])
    requires rounds[MASK - 1].env.at(0).now == 129 * SEC
    ensures a == Apply(NewWheel(), Schedule(0, 130 * SEC, task)) && WF(a)
    ensures RunRound(a, p).Some? && RunRound(RunRound(a, p).value.wheel, q).Some?
    ensures b == RunRound(RunRound(a, p).value.wheel, q).value.wheel
      && Allowed(b, Reschedule(2 * SEC, 127 * SEC, 0), NONE)
    ensures WF(Apply(b, Reschedule(2 * SEC, 127 * SEC, 0)))
    ensures RunRounds(Apply(b, Reschedule(2 * SEC, 127 * SEC, 0)), rounds) == None
  {
    a := OneTimer(0, 130 * SEC, task);
    b := a.(current := 2);
    assert 0 in a.buckets[MASK];
    assert b.buckets == a.buckets && Placed(b.buckets, 0) && WF(b) && RoundToSecs(127 * SEC) == 127;
    assert WF(a.(current := 1)) && a.(current := 1).(current := 2) == b && Alone(b, 0) && Alone(a.(current := 1), 0);
    hide WF, Alone, Idle, RunRounds, RunRound, Apply, RoundToSecs, Placed;
    IdleRound(a, p, 0, MASK);
    IdleRound(a.(current := 1), q, 0, MASK);
    RescheduleLost(b, 2 * SEC, 127 * SEC, 0, 130 * SEC, rounds);
  }

  // `sleep(300)` at 0, and 10 s instead: it is the 299th tick that runs it.
  lemma SleepRescheduledLate(task: TaskId, rounds: seq<Round>)
    ensures var a := Apply(NewWheel(), Schedule(0, 300 * SEC, task));
      && WF(a) && Allowed(a, Reschedule(0, 10 * SEC, 0), NONE) && WF(Apply(a, Reschedule(0, 10 * SEC, 0)))
      && RunsOnce(Apply(a, Reschedule(0, 10 * SEC, 0)), 0, 0, rounds, 298)
  {
    var a := OneTimer(0, 300 * SEC, task);
    var b := AloneReschedule(a, 0, 10 * SEC, 0);
    assert PlannedAt(b, 0, 0, 10, 299 * SEC) by { Later299(); }
    hide WF, Planned, RunsOnce, Apply;
    assert Planned(b, 0, 0, 299 * SEC);
    PlannedRunsOnce(b, 0, 0, rounds, 298);
  }

  lemma Later299()
    ensures Plan(0, 10, Some(300 * SEC)) == 299 * SEC
  {
    assert Plan(0, 10, Some(300 * SEC)) == Plan(10 * SEC, MASK - 1, Some(300 * SEC));
    assert Plan(10 * SEC, MASK - 1, Some(300 * SEC)) == Plan(136 * SEC, MASK - 1, Some(300 * SEC));
    assert Plan(136 * SEC, MASK - 1, Some(300 * SEC)) == 299 * SEC;
  }

  // ---- one sleep ----

  // Of these rounds the n-th, and no other, runs timer `id`. It comes within the second that ends with the D seconds
  // since `start`, or for D above 127 half a second before that. The last tick before the rounds was at T.
  ghost predicate RunsInTime(a: Wheel, id: nat, start: nat, D: nat, T: nat, rounds: seq<Round>, n: nat)
    requires WF(a)
  {
    && (var F, end := T + (n + 1) * SEC, start + D * SEC;
        if D <= MASK then F <= end < F + SEC else F <= end - SEC / 2 < F + SEC)
    && RunRounds(a, rounds).Some?
    && forall k: nat :: k < |rounds| ==> CountRuns(RunRounds(a, rounds).value[k], id) == if k == n then 1 else 0
  }

  // From a wheel in which nothing is on the way to be lost, `sleep(D)` begun where it is sound: the tick that runs it
  // does come.
  lemma SafeSleep(a: Wheel, start: nat, D: nat, task: TaskId, T: nat, rounds: seq<Round>) returns (n: nat)
    requires WF(a) && AllSafe(a, T) && Sound(start, D, T) && Allowed(a, Schedule(start, D * SEC, task), NONE)
    ensures var b, id := Apply(a, Schedule(start, D * SEC, task)), NextId(a);
      WF(b) && (SafeRounds(b, rounds, T) && AllQuiet(rounds, T, id) ==> RunsInTime(b, id, start, D, T, rounds, n))
  {
    var op := Schedule(start, D * SEC, task);
    assert D * SEC / SEC == D;
    hide WF, AllSafe, SafeRounds, AllQuiet, Apply;
    n := Sleep(a, start, D, task, T, rounds);
    OpKeepsSafe(a, op, T, NONE);
    if SafeRounds(Apply(a, op), rounds, T) { NothingIsLost(Apply(a, op), rounds, T); }
  }

  // The same from the new wheel on: some safe rounds, then `sleep(D)`, then safe rounds that leave its timer alone.
  lemma SleepFromNew(before: seq<Round>, start: nat, D: nat, task: TaskId, T: nat, rounds: seq<Round>)
    returns (a: Wheel, n: nat)
    requires SafeRounds(NewWheel(), before, T)
    ensures WheelAfter(NewWheel(), before) == Some(a) && WF(a)
    ensures var op, now, id := Schedule(start, D * SEC, task), T + |before| * SEC, NextId(a);
      Sound(start, D, now) && Allowed(a, op, NONE) ==>
        && WF(Apply(a, op))
        && (SafeRounds(Apply(a, op), rounds, now) && AllQuiet(rounds, now, id) ==>
              RunsInTime(Apply(a, op), id, start, D, now, rounds, n))
  {
    hide AllSafe, SafeRounds, AllQuiet, Apply, Sound, Distinct, NewWheel, RunsInTime, WheelAfter;
    StartsSafe(T);
    NothingIsLost(NewWheel(), before, T);
    a := WheelAfter(NewWheel(), before).value;
    n := 0;
    if Sound(start, D, T + |before| * SEC) && Allowed(a, Schedule(start, D * SEC, task), NONE) {
      n := SafeSleep(a, start, D, task, T + |before| * SEC, rounds);
    }
  }

  // ---- exactly which sleep is lost ----

  // The first tick comes one second after T, and one more every second.
  ghost predicate EverySecond(rounds: seq<Round>, T: nat) {
    forall i :: 0 <= i < |rounds| ==> OnTime(rounds[i].env, T + (i + 1) * SEC)
  }

  ghost predicate AllIdle(rounds: seq<Round>) {
    forall i :: 0 <= i < |rounds| ==> Idle(rounds[i]) && rounds[i].env.limit >= 2
  }

  lemma IdleVisits(a: Wheel, env: Env, T: nat, exit: bool, n: nat)
    requires WF(a) && forall e: nat :: env.at(e).ops == []
    ensures SafeVisits(a, env, T, exit, n)
    decreases n
  {
    var open := After(a.current);
    if a.buckets[open] != [] && n > 0 && VisitFirst(a, open, env, exit).Some? {
      var o := VisitFirst(a, open, env, exit).value;
      IdleVisits(o.wheel, env, T, o.exit, n - 1);
    }
  }

  lemma VisitAlone(a: Wheel, open: nat, env: Env, exit: bool, id: nat)
    requires WF(a) && open == After(a.current) && a.buckets[open] != [] && VisitFirst(a, open, env, exit).Some?
    requires Alone(a, id) && forall e: nat :: env.at(e).ops == []
    ensures Alone(VisitFirst(a, open, env, exit).value.wheel, id)
  {
    VisitCases(a, open, env, exit);
    TakeWF(a, open);
    var e := a.buckets[open][0];
    assert e in a.buckets[open];
    if !exit && !Due(a.timers[e], env.at(e).now) {
      PlaceWF(Take(a, open), env.at(e).now, a.timers[e].expiration.value - env.at(e).now, a.timers[e].expiration, e);
    }
  }

  lemma {:induction false} DrainAlone(a: Wheel, open: nat, env: Env, exit: bool, n: nat, id: nat)
    requires WF(a) && open == After(a.current) && Drain(a, open, env, exit, n).Some?
    requires Alone(a, id) && forall e: nat :: env.at(e).ops == []
    ensures Alone(Drain(a, open, env, exit, n).value.wheel, id)
    decreases n
  {
    hide WF, Drain, VisitFirst, Alone;
    DrainStep(a, open, env, exit, n);
    if a.buckets[open] != [] {
      VisitAlone(a, open, env, exit, id);
      var o := VisitFirst(a, open, env, exit).value;
      DrainAlone(o.wheel, open, env, o.exit, n - 1, id);
    }
  }

  // Idle rounds, one second apart, are safe while there is at most one timer, and quiet for every timer.
  lemma {:induction false} IdleSafe(a: Wheel, rounds: seq<Round>, T: nat, id: nat)
    requires WF(a) && Alone(a, id) && AllIdle(rounds) && EverySecond(rounds, T)
    ensures SafeRounds(a, rounds, T) && AllQuiet(rounds, T, id)
    decreases |rounds|
  {
    if rounds != [] {
      var r := rounds[0];
      assert Idle(r) && OnTime(r.env, T + (0 + 1) * SEC);
      LaterSeconds(rounds, T);
      assert AllIdle(rounds[1..]);
      IdleSafeRound(a, r, T, id);
      if RunRound(a, r).Some? {
        IdleSafe(RunRound(a, r).value.wheel, rounds[1..], T + SEC, id);
      } else {
        IdleQuiet(rounds[1..], T + SEC, id);
      }
    }
  }

  lemma {:induction false} IdleQuiet(rounds: seq<Round>, T: nat, id: nat)
    requires AllIdle(rounds) && EverySecond(rounds, T)
    ensures AllQuiet(rounds, T, id)
    decreases |rounds|
  {
    if rounds != [] {
      assert Idle(rounds[0]) && OnTime(rounds[0].env, T + (0 + 1) * SEC);
      LaterSeconds(rounds, T);
      IdleQuiet(rounds[1..], T + SEC, id);
    }
  }

  lemma LaterSeconds(rounds: seq<Round>, T: nat)
    requires rounds != [] && EverySecond(rounds, T)
    ensures EverySecond(rounds[1..], T + SEC)
  {
    forall i | 0 <= i < |rounds[1..]| ensures OnTime(rounds[1..][i].env, T + SEC + (i + 1) * SEC) {
      assert OnTime(rounds[i + 1].env, T + ((i + 1) + 1) * SEC);
    }
  }

  lemma IdleSafeRound(a: Wheel, r: Round, T: nat, id: nat)
    requires WF(a) && Alone(a, id) && Idle(r) && OnTime(r.env, T + SEC) && r.env.limit >= 2
    ensures SafeOps(a, r.ops, T, NONE) && Calm(r.env) && SafeCallbacks(a, r, T) && Quiet(r, T + SEC, id)
    ensures RunRound(a, r).Some? ==> Alone(RunRound(a, r).value.wheel, id)
  {
    var open := After(a.current);
    IdleVisits(a, r.env, T, false, r.env.limit);
    AloneBucket(a, id, open);
    assert Weight([id][1..], a.timers) == 0;
    if RunRound(a, r).Some? { DrainAlone(a, open, r.env, false, r.env.limit, id); }
  }

  // `sleep(D)` begun on the new wheel at `start`, within a second after T, with ticks one second apart from T on and
  // nothing else to do. It is lost exactly if D is 128 and it was begun in the first half of the second. Otherwise
  // exactly one tick runs it, within the second that ends with it, or for D above 127 half a second before that.
  lemma SleepExactly(start: nat, D: nat, task: TaskId, T: nat, rounds: seq<Round>) returns (a: Wheel, n: nat)
    requires T <= start < T + SEC && D >= 1 && AllIdle(rounds) && EverySecond(rounds, T)
    ensures a == Apply(NewWheel(), Schedule(start, D * SEC, task)) && WF(a)
    ensures RunRounds(a, rounds) == None <==> D == NUM_SLOTS && start - T < SEC / 2 && |rounds| >= MASK
    ensures !(D == NUM_SLOTS && start - T < SEC / 2) ==> RunsInTime(a, 0, start, D, T, rounds, n)
  {
    assert D * SEC / SEC == D;
    a := OneTimer(start, D * SEC, task);
    IdleSafe(a, rounds, T, 0);
    n := 0;
    hide WF, AllSafe, SafeRounds, AllQuiet, Apply, Alone, RunRounds;
    if !(D == NUM_SLOTS && start - T < SEC / 2) {
      StartsSafe(T);
      n := SafeSleep(NewWheel(), start, D, task, T, rounds);
    } else if |rounds| >= MASK {
      assert OnTime(rounds[MASK - 1].env, T + (MASK - 1 + 1) * SEC);
      LongLost(start, D * SEC, task, rounds);
    } else {
      EarlyRounds(a, rounds, 0, MASK);
    }
  }

  // ---- exactly which reschedule is lost ----

  // The timer of a wheel with nothing else to do is rescheduled by a duration that rounds to 128 s or more. It is lost
  // exactly if that ends within the half second after the 128th second since the last tick. Otherwise exactly one tick
  // runs it, in (end - 1.5 s, end - 0.5 s].
  lemma LongRescheduleExactly(a: Wheel, now: nat, dur: nat, id: nat, T: nat, rounds: seq<Round>)
    returns (b: Wheel, n: nat)
    requires WF(a) && Alone(a, id) && Placed(a.buckets, id) && RoundToSecs(dur) >= 128
    requires T <= now && AllIdle(rounds) && EverySecond(rounds, T)
    ensures b == Apply(a, Reschedule(now, dur, id)) && WF(b)
    ensures RunRounds(b, rounds) == None <==> 128 * SEC <= now + dur - T < 128 * SEC + SEC / 2 && |rounds| >= 127
    ensures RunRounds(b, rounds).Some? ==>
      && (var F, end := T + (n + 1) * SEC, now + dur; end - SEC - SEC / 2 < F <= end - SEC / 2)
      && forall k: nat :: k < |rounds| ==> CountRuns(RunRounds(b, rounds).value[k], id) == if k == n then 1 else 0
  {
    var s := SlotAt(a.current, MASK);
    b := LongRescheduled(a, now, dur, id);
    n := RescheduleLong(a, now, dur, id, T, rounds);
    IdleSafe(b, rounds, T, id);
    LoneSafe(b, id, s, T);
    hide WF, SafeRounds, AllQuiet, Apply, Alone, RunRounds, RoundToSecs, Placed, AllSafe, CountRuns;
    if !(128 * SEC <= now + dur - T < 128 * SEC + SEC / 2) {
      NothingIsLost(b, rounds, T);
    } else if |rounds| >= MASK {
      assert OnTime(rounds[MASK - 1].env, T + (MASK - 1 + 1) * SEC);
      LosesAt(b, rounds, id, s, now + dur);
    } else {
      EarlyRounds(b, rounds, id, s);
    }
  }

  lemma LongRescheduled(a: Wheel, now: nat, dur: nat, id: nat) returns (b: Wheel)
    requires WF(a) && Alone(a, id) && Placed(a.buckets, id) && RoundToSecs(dur) >= 128
    ensures b == Apply(a, Reschedule(now, dur, id)) && WF(b) && Alone(b, id)
    ensures var s := SlotAt(a.current, MASK);
      && b.current == a.current && id in b.buckets[s] && TicksTo(b.current, s) == MASK
      && id in b.timers && b.timers[id].expiration == Some(now + dur)
  {
    ApplyKeeps(a, Reschedule(now, dur, id), NONE);
    DropMembers(a.buckets, id);
    b := Apply(a, Reschedule(now, dur, id));
  }

  lemma LoneSafe(a: Wheel, id: nat, s: nat, T: nat)
    requires WF(a) && Alone(a, id) && s < NUM_SLOTS && id in a.buckets[s] && id in a.timers
    ensures SafeIn(a, T, s, id) ==> AllSafe(a, T)
  {
    if SafeIn(a, T, s, id) {
      forall r, i: nat | 0 <= r < NUM_SLOTS && i in a.buckets[r] ensures SafeIn(a, T, r, i) {
        assert i == id && r == s;
      }
    }
  }
}
