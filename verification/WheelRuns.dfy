// Runs of the timing wheel: when a timer is run over any number of ticks.
module WheelRuns {
  import opened Bits
  import opened Slabs
  import opened WheelLinks
  import opened WheelSpec
  import opened WheelTicks

  // ---- rounds ----

  // Between two ticks some operations happen; then comes the tick.
  datatype Round = Round(ops: seq<Op>, env: Env)

  ghost function RunRound(a: Wheel, r: Round): (o: Option<Outcome>)
    requires WF(a)
    ensures o.Some? ==> WF(o.value.wheel)
  {
    match ApplyAll(a, r.ops, NONE)
    case None => None
    case Some(b) => Tick(b, r.env)
  }

  // The timers run by each of a number of rounds.
  ghost function RunRounds(a: Wheel, rounds: seq<Round>): (o: Option<seq<seq<Run>>>)
    requires WF(a)
    ensures o.Some? ==> |o.value| == |rounds|
    decreases |rounds|
  {
    if rounds == [] then Some([])
    else
      match RunRound(a, rounds[0])
      case None => None
      case Some(o) =>
        match RunRounds(o.wheel, rounds[1..])
        case None => None
        case Some(rest) => Some([o.ran] + rest)
  }

  lemma RunRoundsSplit(a: Wheel, rounds: seq<Round>, k: nat)
    requires WF(a) && RunRounds(a, rounds).Some? && k < |rounds|
    ensures RunRound(a, rounds[0]).Some?
    ensures var o := RunRound(a, rounds[0]).value;
      && RunRounds(o.wheel, rounds[1..]).Some?
      && RunRounds(a, rounds).value[k] == if k == 0 then o.ran else RunRounds(o.wheel, rounds[1..]).value[k - 1]
  {
    hide RunRound, WF;
  }

  // The round leaves the timer alone and does not stop the loop.
  ghost predicate Steady(r: Round, id: nat) {
    Untouched(r.ops, id) && EnvSpares(r.env, id) && NoExit(r.env)
  }

  // A timer that has been run is not run again while it is left alone.
  ghost predicate Expired(a: Wheel, id: nat) {
    id in a.timers && !Placed(a.buckets, id)
  }

  lemma RoundKeepsExpired(a: Wheel, r: Round, id: nat)
    requires WF(a) && RunRound(a, r).Some? && Steady(r, id) && Expired(a, id)
    ensures CountRuns(RunRound(a, r).value.ran, id) == 0 && Expired(RunRound(a, r).value.wheel, id)
  {
    var b := ApplyAll(a, r.ops, NONE).value;
    ApplyAllFrame(a, r.ops, NONE, id);
    assert forall s :: 0 <= s < NUM_SLOTS ==> id !in b.buckets[s];
    DrainAfter(b, After(b.current), r.env, false, r.env.limit, id);
  }

  // ---- timers that count ticks ----

  // Timer `id` stores no expiration and sits c ticks away.
  ghost predicate Counts(a: Wheel, id: nat, c: nat) {
    exists s: nat :: CountsAt(a, id, s, c)
  }

  ghost predicate CountsAt(a: Wheel, id: nat, s: nat, c: nat) {
    && a.current < NUM_SLOTS && s < NUM_SLOTS == |a.buckets| && id in a.buckets[s] && TicksTo(a.current, s) == c
    && id in a.timers && a.timers[id].expiration.None?
  }

  lemma TicksAfter(current: nat, s: nat)
    requires current < NUM_SLOTS && s < NUM_SLOTS
    ensures TicksTo(current, s) == 1 <==> s == After(current)
    ensures s != After(current) ==> TicksTo(After(current), s) == TicksTo(current, s) - 1
  {
  }

  // A round takes one from the count; at zero the timer is run. The clock does not matter.
  lemma RoundCountsDown(a: Wheel, r: Round, id: nat, c: nat)
    requires WF(a) && RunRound(a, r).Some? && Steady(r, id) && Counts(a, id, c)
    ensures c > 0
    ensures var o := RunRound(a, r).value;
      if c == 1 then CountRuns(o.ran, id) == 1 && Expired(o.wheel, id)
      else CountRuns(o.ran, id) == 0 && Counts(o.wheel, id, c - 1)
  {
    var s: nat :| CountsAt(a, id, s, c);
    var b := ApplyAll(a, r.ops, NONE).value;
    ApplyAllFrame(a, r.ops, NONE, id);
    assert CountsAt(b, id, s, c);
    var open := After(b.current);
    TicksAfter(b.current, s);
    if s == open {
      DrainVisits(b, open, r.env, r.env.limit, id);
    } else {
      assert id !in b.buckets[open];
      DrainAfter(b, open, r.env, false, r.env.limit, id);
      assert CountsAt(RunRound(a, r).value.wheel, id, s, c - 1);
    }
  }

  // Over any number of rounds, with ticks at any times, a timer left alone is run by exactly the c-th tick, once,
  // and by no other. (c == 0: it has been run.)
  lemma {:induction false} RunsAtCount(a: Wheel, rounds: seq<Round>, id: nat, c: nat, k: nat)
    requires WF(a) && k < |rounds|
    requires forall i :: 0 <= i < |rounds| ==> Steady(rounds[i], id)
    requires if c == 0 then Expired(a, id) else Counts(a, id, c)
    ensures RunRounds(a, rounds).Some? ==> CountRuns(RunRounds(a, rounds).value[k], id) == if k + 1 == c then 1 else 0
    decreases |rounds|
  {
    if RunRounds(a, rounds).None? { return; }
    hide Steady, Expired, Counts, RunRound, WF, Drain;
    RunRoundsSplit(a, rounds, k);
    if c == 0 { RoundKeepsExpired(a, rounds[0], id); } else { RoundCountsDown(a, rounds[0], id, c); }
    if k > 0 {
      RunsAtCount(RunRound(a, rounds[0]).value.wheel, rounds[1..], id, if c == 0 then 0 else c - 1, k - 1);
    }
  }

  // `schedule` with a duration of t seconds and a fraction, t up to 127: the t-th of the following ticks runs the
  // timer, for t == 0 the 128th.
  lemma ScheduleCounts(a: Wheel, now: nat, dur: nat, task: TaskId, rounds: seq<Round>, k: nat)
    requires WF(a) && Allowed(a, Op.Schedule(now, dur, task), NONE) && dur / SEC <= MASK
    ensures WF(Apply(a, Op.Schedule(now, dur, task)))
    ensures var b, id := Apply(a, Op.Schedule(now, dur, task)), NextId(a);
      RunRounds(b, rounds).Some? && (forall i :: 0 <= i < |rounds| ==> Steady(rounds[i], id)) && k < |rounds| ==>
      CountRuns(RunRounds(b, rounds).value[k], id) == if k + 1 == (if dur / SEC == 0 then NUM_SLOTS else dur / SEC)
        then 1 else 0
  {
    var op := Op.Schedule(now, dur, task);
    ApplyKeeps(a, op, NONE);
    var b, s, c, id := Apply(a, op), Target(a, op), if dur / SEC == 0 then NUM_SLOTS else dur / SEC, NextId(a);
    assert id in b.buckets[s];
    assert CountsAt(b, id, s, c);
    if RunRounds(b, rounds).Some? && (forall i :: 0 <= i < |rounds| ==> Steady(rounds[i], id)) && k < |rounds| {
      RunsAtCount(b, rounds, id, c, k);
    }
  }

  // ---- timers that store an expiration ----

  // The tick at which a timer `c` ticks away is run, if the last tick was at T, one tick comes every second and
  // nobody touches the timer.
  function Plan(T: nat, c: nat, exp: Option<nat>): (t: nat)
    requires c >= 1
    ensures t >= T + c * SEC
    decreases if exp.Some? && exp.value > T then exp.value - T else 0
  {
    var V := T + c * SEC;
    if exp.None? || exp.value < V + SEC then V
    else
      var r := RoundToSecs(exp.value - V);
      if r <= MASK then V + (r - 1) * SEC else Plan(V, MASK - 1, exp)
  }

  lemma RoundBounds(x: nat)
    ensures RoundToSecs(x) * SEC <= x + SEC / 2 < (RoundToSecs(x) + 1) * SEC
  {
  }

  // A timer is never run more than half a second after its stored expiration less one second, nor more than a
  // second and a half before it.
  lemma {:induction false} PlanBounds(T: nat, c: nat, E: nat)
    requires c >= 1 && E >= T + c * SEC + SEC + SEC / 2
    ensures E - SEC - SEC / 2 < Plan(T, c, Some(E)) <= E - SEC / 2
    decreases E - T
  {
    var V := T + c * SEC;
    RoundBounds(E - V);
    if RoundToSecs(E - V) > MASK { PlanBounds(V, MASK - 1, E); }
  }

  // The round is steady, and its tick comes to the timer, if it does, at time T.
  ghost predicate Quiet(r: Round, T: nat, id: nat) {
    Steady(r, id) && r.env.at(id).now == T
  }

  // Timer `id` sits in bucket s and is going to be run at F.
  ghost predicate PlannedAt(a: Wheel, T: nat, id: nat, s: nat, F: nat) {
    && id in a.timers && a.current < NUM_SLOTS && s < NUM_SLOTS == |a.buckets| && id in a.buckets[s]
    && Plan(T, TicksTo(a.current, s), a.timers[id].expiration) == F
  }

  ghost predicate Planned(a: Wheel, T: nat, id: nat, F: nat) {
    exists s: nat :: PlannedAt(a, T, id, s, F)
  }

  lemma PlanLater(T: nat, c: nat, exp: Option<nat>)
    requires c > 1
    ensures Plan(T, c, exp) == Plan(T + SEC, c - 1, exp)
  {
    assert T + c * SEC == (T + SEC) + (c - 1) * SEC;
  }

  // The tick does not reach the timer's bucket.
  lemma TickElsewhere(b: Wheel, env: Env, T: nat, id: nat, s: nat, F: nat)
    requires WF(b) && Tick(b, env).Some? && PlannedAt(b, T, id, s, F) && s != After(b.current) && EnvSpares(env, id)
    ensures var o := Tick(b, env).value;
      F > T + SEC && CountRuns(o.ran, id) == 0 && PlannedAt(o.wheel, T + SEC, id, s, F)
  {
    var open := After(b.current);
    TicksAfter(b.current, s);
    assert id !in b.buckets[open];
    DrainAfter(b, open, env, false, env.limit, id);
    PlanLater(T, TicksTo(b.current, s), b.timers[id].expiration);
  }

  // The tick drains the timer's bucket.
  lemma TickHere(b: Wheel, env: Env, T: nat, id: nat, F: nat) returns (s: nat)
    requires WF(b) && Tick(b, env).Some? && EnvSpares(env, id) && NoExit(env) && env.at(id).now == T + SEC
    requires b.current < NUM_SLOTS && PlannedAt(b, T, id, After(b.current), F)
    ensures F >= T + SEC
    ensures var o := Tick(b, env).value;
      if F == T + SEC then CountRuns(o.ran, id) == 1 && Expired(o.wheel, id)
      else CountRuns(o.ran, id) == 0 && PlannedAt(o.wheel, T + SEC, id, s, F)
  {
    hide Plan, Drain, Distinct, Add, Drop;
    var open, V, info := After(b.current), T + SEC, b.timers[id];
    TicksAfter(b.current, open);
    DrainVisits(b, open, env, env.limit, id);
    PlanRequeue(T, info);
    assert F == Plan(T, 1, info.expiration);
    s := open;
    if !Due(info, V) && !Rejoins(info, V) {
      var q := RequeueSecs(info, V);
      s := SlotAt(b.current, q);
      TicksAt(b.current, q);
    }
  }

  lemma PlanRequeue(T: nat, info: Info)
    ensures var V, F := T + SEC, Plan(T, 1, info.expiration);
      if Due(info, V) || Rejoins(info, V) then F == V
      else
        var q := RequeueSecs(info, V);
        && q > 1 && F > V
        && F == Plan(V, q - 1, if RoundToSecs(info.expiration.value - V) > MASK then info.expiration else None)
  {
    if !Due(info, T + SEC) { RoundBounds(info.expiration.value - (T + SEC)); }
  }

  lemma TicksAt(current: nat, q: nat)
    requires current < NUM_SLOTS && 1 <= q < NUM_SLOTS
    ensures TicksTo(current, SlotAt(current, q)) == q
    ensures SlotAt(current, q) == After(current) <==> q == 1
    ensures q > 1 ==> TicksTo(After(current), SlotAt(current, q)) == q - 1
  {
  }

  // One round: the timer is run exactly when its time has come, and otherwise keeps its plan.
  lemma RoundKeepsPlan(a: Wheel, r: Round, T: nat, id: nat, F: nat)
    requires WF(a) && RunRound(a, r).Some? && Quiet(r, T + SEC, id) && Planned(a, T, id, F)
    ensures F >= T + SEC
    ensures var o := RunRound(a, r).value;
      if F == T + SEC then CountRuns(o.ran, id) == 1 && Expired(o.wheel, id)
      else CountRuns(o.ran, id) == 0 && Planned(o.wheel, T + SEC, id, F)
  {
    var s: nat :| PlannedAt(a, T, id, s, F);
    var b := ApplyAll(a, r.ops, NONE).value;
    ApplyAllFrame(a, r.ops, NONE, id);
    assert PlannedAt(b, T, id, s, F);
    if s != After(b.current) {
      TickElsewhere(b, r.env, T, id, s, F);
    } else {
      var s' := TickHere(b, r.env, T, id, F);
    }
  }

  // Every round is quiet, with the first tick a second after T and one more every second.
  ghost predicate AllQuiet(rounds: seq<Round>, T: nat, id: nat)
    decreases |rounds|
  {
    rounds == [] || (Quiet(rounds[0], T + SEC, id) && AllQuiet(rounds[1..], T + SEC, id))
  }

  ghost predicate PlannedOrOver(a: Wheel, T: nat, id: nat, F: nat) {
    Planned(a, T, id, F) || (Expired(a, id) && F <= T)
  }

  lemma FirstRound(a: Wheel, r: Round, T: nat, id: nat, F: nat)
    requires WF(a) && RunRound(a, r).Some? && Quiet(r, T + SEC, id) && PlannedOrOver(a, T, id, F)
    ensures var o := RunRound(a, r).value;
      CountRuns(o.ran, id) == (if F == T + SEC then 1 else 0) && PlannedOrOver(o.wheel, T + SEC, id, F)
  {
    if Planned(a, T, id, F) {
      RoundKeepsPlan(a, r, T, id, F);
    } else {
      RoundKeepsExpired(a, r, id);
    }
  }

  // Over any number of rounds with ticks one second apart, a timer left alone is run by exactly the tick of its
  // plan, once, and by no other.
  lemma {:induction false} RunsExactlyAtPlan(a: Wheel, rounds: seq<Round>, T: nat, id: nat, F: nat, k: nat)
    requires WF(a) && RunRounds(a, rounds).Some? && k < |rounds|
    requires AllQuiet(rounds, T, id)
    requires PlannedOrOver(a, T, id, F)
    ensures CountRuns(RunRounds(a, rounds).value[k], id) == if F == T + (k + 1) * SEC then 1 else 0
    decreases |rounds|
  {
    hide Quiet, PlannedOrOver, RunRound, WF, Drain;
    RunRoundsSplit(a, rounds, k);
    FirstRound(a, rounds[0], T, id, F);
    if k > 0 { RunsExactlyAtPlan(RunRound(a, rounds[0]).value.wheel, rounds[1..], T + SEC, id, F, k - 1); }
  }

  // ---- timers as they are scheduled ----

  // The plan is a whole number of seconds away.
  lemma {:induction false} PlanOnGrid(T: nat, c: nat, exp: Option<nat>) returns (n: nat)
    requires c >= 1
    ensures Plan(T, c, exp) == T + (n + 1) * SEC
    decreases if exp.Some? && exp.value > T then exp.value - T else 0
  {
    var V := T + c * SEC;
    n := c - 1;
    if exp.Some? && exp.value >= V + SEC {
      var r := RoundToSecs(exp.value - V);
      RoundBounds(exp.value - V);
      if r <= MASK {
        n := c + r - 2;
      } else {
        var m := PlanOnGrid(V, MASK - 1, exp);
        n := c + m;
      }
    }
  }

  // The plan of a timer scheduled between the tick at T and the next one.
  lemma SchedulePlan(a: Wheel, now: nat, dur: nat, task: TaskId, T: nat)
    requires WF(a) && Allowed(a, Op.Schedule(now, dur, task), NONE)
    ensures var b, secs := Apply(a, Op.Schedule(now, dur, task)), dur / SEC;
      WF(b) && Planned(b, T, NextId(a),
        if secs == 0 then T + NUM_SLOTS * SEC else if secs <= MASK then T + secs * SEC
          else Plan(T, MASK, Some(now + dur)))
  {
    var op := Op.Schedule(now, dur, task);
    ApplyKeeps(a, op, NONE);
    var b, s, c := Apply(a, op), Target(a, op), if dur / SEC == 0 then NUM_SLOTS else Min(dur / SEC, MASK);
    assert NextId(a) in b.buckets[s];
    assert TicksTo(b.current, s) == c;
    assert PlannedAt(b, T, NextId(a), s, Plan(T, c, b.timers[NextId(a)].expiration));
  }

  // Scheduled at `start` for D seconds, the timer comes to its first visit outside the half second in which it
  // would be put back into the bucket it is in.
  predicate Sound(start: nat, D: nat, T: nat) {
    T <= start < T + SEC && D >= 1 && (D <= MASK || start - T + D * SEC >= NUM_SLOTS * SEC + SEC / 2)
  }

  lemma SleepPlan(a: Wheel, start: nat, D: nat, task: TaskId, T: nat) returns (n: nat)
    requires WF(a) && Sound(start, D, T) && Allowed(a, Op.Schedule(start, D * SEC, task), NONE)
    ensures var F, end := T + (n + 1) * SEC, start + D * SEC;
      && (if D <= MASK then F <= end < F + SEC else F <= end - SEC / 2 < F + SEC)
      && WF(Apply(a, Op.Schedule(start, D * SEC, task)))
      && Planned(Apply(a, Op.Schedule(start, D * SEC, task)), T, NextId(a), F)
  {
    assert D * SEC / SEC == D;
    SchedulePlan(a, start, D * SEC, task, T);
    n := D - 1;
    if D > MASK {
      PlanBounds(T, MASK, start + D * SEC);
      n := PlanOnGrid(T, MASK, Some(start + D * SEC));
    }
  }

  lemma OneTick(n: nat, k: nat, T: nat)
    ensures T + (n + 1) * SEC == T + (k + 1) * SEC <==> k == n
  {
  }

  // Of these rounds, if they are quiet and none of their ticks loses a timer, only the n-th runs the timer.
  ghost predicate RunsOnce(a: Wheel, id: nat, T: nat, rounds: seq<Round>, n: nat)
    requires WF(a)
  {
    RunRounds(a, rounds).Some? && AllQuiet(rounds, T, id) ==>
      forall k: nat :: k < |rounds| ==> CountRuns(RunRounds(a, rounds).value[k], id) == if k == n then 1 else 0
  }

  lemma PlannedRunsOnce(a: Wheel, id: nat, T: nat, rounds: seq<Round>, n: nat)
    requires WF(a) && Planned(a, T, id, T + (n + 1) * SEC)
    ensures RunsOnce(a, id, T, rounds, n)
  {
    hide WF, Planned, AllQuiet, Expired, RunRounds, CountRuns;
    if RunRounds(a, rounds).Some? && AllQuiet(rounds, T, id) {
      forall k: nat | k < |rounds| ensures CountRuns(RunRounds(a, rounds).value[k], id) == if k == n then 1 else 0 {
        RunsExactlyAtPlan(a, rounds, T, id, T + (n + 1) * SEC, k);
        OneTick(n, k, T);
      }
    }
  }

  // `sleep(D)`: with ticks one second apart, exactly one of them runs the timer. It comes at a time in
  // (start + D - 1 s, start + D] for D <= 127, and in (start + D - 1.5 s, start + D - 0.5 s] for D >= 129, and for
  // D == 128 where it is sound.
  lemma Sleep(a: Wheel, start: nat, D: nat, task: TaskId, T: nat, rounds: seq<Round>) returns (n: nat)
    requires WF(a) && Sound(start, D, T) && Allowed(a, Op.Schedule(start, D * SEC, task), NONE)
    ensures WF(Apply(a, Op.Schedule(start, D * SEC, task)))
    ensures var F, end := T + (n + 1) * SEC, start + D * SEC;
      if D <= MASK then F <= end < F + SEC else F <= end - SEC / 2 < F + SEC
    ensures RunsOnce(Apply(a, Op.Schedule(start, D * SEC, task)), NextId(a), T, rounds, n)
  {
    hide Planned, Apply, Allowed, Sound, RunsOnce;
    n := SleepPlan(a, start, D, task, T);
    PlannedRunsOnce(Apply(a, Op.Schedule(start, D * SEC, task)), NextId(a), T, rounds, n);
  }

  // ---- timers that are scheduled by a task that a tick runs ----

  // The wheel has not moved on yet, so the tick that is under way counts as one of the seconds.
  lemma ScheduleInTick(a: Wheel, op: Op, open: nat, env: Env, exit: bool, n: nat, T: nat) returns (w: Wheel)
    requires WF(a) && open == After(a.current) && Allowed(a, op, open) && op.Schedule? && !OneSecond(op)
    requires EnvSpares(env, NextId(a))
    requires WF(Apply(a, op)) && Drain(Apply(a, op), open, env, exit, n).Some?
    ensures w == Drain(Apply(a, op), open, env, exit, n).value.wheel.(current := open)
    ensures var id, secs := NextId(a), op.dur / SEC;
      WF(w) && if secs <= MASK then Counts(w, id, if secs == 0 then MASK else secs - 1)
        else Planned(w, T + SEC, id, Plan(T, MASK, Some(op.now + op.dur)))
  {
    hide Distinct, Drain, Plan;
    var b, s, id := Apply(a, op), Target(a, op), NextId(a);
    OneSecondTargets(a, op);
    ApplyKeeps(a, op, open);
    AddWF(a, Info(op.task, None));
    assert id !in a.buckets[open] && id in b.buckets[s] && id !in b.buckets[open];
    DrainAfter(b, open, env, exit, n, id);
    w := Drain(b, open, env, exit, n).value.wheel.(current := open);
    TicksAfter(a.current, s);
    if op.dur / SEC <= MASK {
      assert CountsAt(w, id, s, if op.dur / SEC == 0 then MASK else op.dur / SEC - 1);
    } else {
      PlanLater(T, MASK, Some(op.now + op.dur));
      assert PlannedAt(w, T + SEC, id, s, Plan(T, MASK, Some(op.now + op.dur)));
    }
  }

  // The same for a timer that the task restarts.
  lemma RescheduleInTick(a: Wheel, op: Op, open: nat, env: Env, exit: bool, n: nat, T: nat) returns (w: Wheel)
    requires WF(a) && open == After(a.current) && Allowed(a, op, open) && op.Reschedule? && !OneSecond(op)
    requires EnvSpares(env, op.id)
    requires WF(Apply(a, op)) && Drain(Apply(a, op), open, env, exit, n).Some?
    ensures w == Drain(Apply(a, op), open, env, exit, n).value.wheel.(current := open)
    ensures op.id in a.timers
    ensures var secs := RoundToSecs(op.dur);
      var c, exp := if secs == 0 then 128 else Min(secs, 127),
        if secs >= 128 then Some(op.now + op.dur) else a.timers[op.id].expiration;
      WF(w) && Planned(w, T + SEC, op.id, Plan(T, c, exp)) && (exp.None? ==> Counts(w, op.id, c - 1))
  {
    var b, s, id := Apply(a, op), Target(a, op), op.id;
    RescheduledAway(a, op, open);
    var secs := RoundToSecs(op.dur);
    var c, exp := if secs == 0 then 128 else Min(secs, 127),
      if secs >= 128 then Some(op.now + op.dur) else a.timers[id].expiration;
    hide Drain, Plan, RoundToSecs, Target, Apply, WF, Planned, Counts;
    w := StaysInTick(b, open, env, exit, n, id, s, c, T);
  }

  lemma RescheduledAway(a: Wheel, op: Op, open: nat)
    requires WF(a) && open == After(a.current) && Allowed(a, op, open) && op.Reschedule? && !OneSecond(op)
    ensures op.id in a.timers
    ensures var b, s, secs := Apply(a, op), Target(a, op), RoundToSecs(op.dur);
      && b.current == a.current && |b.buckets| == NUM_SLOTS && op.id in b.timers
      && op.id in b.buckets[s] && op.id !in b.buckets[open]
      && b.timers[op.id].expiration == (if secs >= 128 then Some(op.now + op.dur) else a.timers[op.id].expiration)
      && TicksTo(a.current, s) == if secs == 0 then 128 else Min(secs, 127)
  {
    OneSecondTargets(a, op);
    RescheduleStores(a, op.now, op.dur, op.id, open);
    DropMembers(a.buckets, op.id);
  }

  // A timer out of the bucket that drains, c ticks away, is one tick nearer after the tick.
  lemma StaysInTick(b: Wheel, open: nat, env: Env, exit: bool, n: nat, id: nat, s: nat, c: nat, T: nat)
    returns (w: Wheel)
    requires WF(b) && open == After(b.current) && EnvSpares(env, id) && Drain(b, open, env, exit, n).Some?
    requires s < NUM_SLOTS && id in b.timers && id in b.buckets[s] && id !in b.buckets[open]
      && TicksTo(b.current, s) == c
    ensures w == Drain(b, open, env, exit, n).value.wheel.(current := open) && WF(w)
    ensures Planned(w, T + SEC, id, Plan(T, c, b.timers[id].expiration))
    ensures b.timers[id].expiration.None? ==> Counts(w, id, c - 1)
  {
    hide Drain, Plan, Distinct;
    DrainAfter(b, open, env, exit, n, id);
    w := Drain(b, open, env, exit, n).value.wheel.(current := open);
    TicksAfter(b.current, s);
    var exp := b.timers[id].expiration;
    PlanLater(T, c, exp);
    assert PlannedAt(w, T + SEC, id, s, Plan(T, c, exp));
    assert exp.None? ==> CountsAt(w, id, s, c - 1);
  }

  // Of D seconds, D >= 2, begun in a task that the tick at V runs, only D - 1 pass: the (D - 1)-th following tick runs
  // the timer.
  lemma SleepInTick(a: Wheel, start: nat, D: nat, task: TaskId, V: nat, env: Env, exit: bool, n: nat,
    rounds: seq<Round>)
    returns (w: Wheel)
    requires WF(a) && D >= 2 && SEC <= V <= start < V + SEC / 2
    requires var op, open := Op.Schedule(start, D * SEC, task), After(a.current);
      && Allowed(a, op, open) && EnvSpares(env, NextId(a))
      && WF(Apply(a, op)) && Drain(Apply(a, op), open, env, exit, n).Some?
    ensures w == Drain(Apply(a, Op.Schedule(start, D * SEC, task)), After(a.current), env, exit, n).value.wheel
                   .(current := After(a.current))
    ensures WF(w) && RunsOnce(w, NextId(a), V, rounds, D - 2)
  {
    var op, T, id := Op.Schedule(start, D * SEC, task), V - SEC, NextId(a);
    assert D * SEC / SEC == D;
    hide Apply, Allowed, Drain, Planned, RunsOnce, Counts;
    w := ScheduleInTick(a, op, After(a.current), env, exit, n, T);
    if D <= MASK {
      CountsPlanned(w, V, id, D - 1);
    } else {
      LongPlanInTick(V, start, D);
    }
    PlannedRunsOnce(w, id, V, rounds, D - 2);
  }

  lemma CountsPlanned(a: Wheel, T: nat, id: nat, c: nat)
    requires Counts(a, id, c) && c > 0
    ensures Planned(a, T, id, T + c * SEC)
  {
    var s: nat :| CountsAt(a, id, s, c);
    assert PlannedAt(a, T, id, s, T + c * SEC);
  }

  lemma LongPlanInTick(V: nat, start: nat, D: nat)
    requires D > MASK && SEC <= V <= start < V + SEC / 2
    ensures Plan(V - SEC, MASK, Some(start + D * SEC)) == V + (D - 1) * SEC
  {
    PlanBounds(V - SEC, MASK, start + D * SEC);
    var n := PlanOnGrid(V - SEC, MASK, Some(start + D * SEC));
    assert n == D - 1;
  }

  // ---- long durations ----

  // A timer that is a turn of the wheel away and stores its end, half a second behind that turn or later.
  lemma PlanLong(T: nat, E: nat) returns (n: nat)
    requires E >= T + MASK * SEC + SEC / 2
    ensures Plan(T, MASK, Some(E)) == T + (n + 1) * SEC
    ensures E - SEC - SEC / 2 < T + (n + 1) * SEC <= E - SEC / 2
  {
    if E >= T + MASK * SEC + SEC + SEC / 2 {
      PlanBounds(T, MASK, E);
      n := PlanOnGrid(T, MASK, Some(E));
    } else {
      var V := T + MASK * SEC;
      n := MASK - 1;
      if E >= V + SEC { RoundBounds(E - V); }
    }
  }

  // `schedule` with any duration of 128 s or more, and ticks one second apart after it: exactly one of them runs the
  // timer, in (end - 1.5 s, end - 0.5 s], as long as no tick fails.
  lemma ScheduleLong(a: Wheel, now: nat, dur: nat, task: TaskId, T: nat, rounds: seq<Round>) returns (n: nat)
    requires WF(a) && Allowed(a, Op.Schedule(now, dur, task), NONE) && dur >= 128_000_000_000 && T <= now
    ensures WF(Apply(a, Op.Schedule(now, dur, task)))
    ensures var F, end := T + (n + 1) * SEC, now + dur; end - SEC - SEC / 2 < F <= end - SEC / 2
    ensures RunsOnce(Apply(a, Op.Schedule(now, dur, task)), NextId(a), T, rounds, n)
  {
    SchedulePlan(a, now, dur, task, T);
    hide Planned, Apply, Allowed, RunsOnce, Plan;
    n := PlanLong(T, now + dur);
    PlannedRunsOnce(Apply(a, Op.Schedule(now, dur, task)), NextId(a), T, rounds, n);
  }

  // The plan of a rescheduled timer: so many places ahead, and what it stores then.
  lemma ReschedulePlan(a: Wheel, now: nat, dur: nat, id: nat, T: nat)
    requires WF(a) && Allowed(a, Op.Reschedule(now, dur, id), NONE)
    ensures id in a.timers
    ensures var b, secs := Apply(a, Op.Reschedule(now, dur, id)), RoundToSecs(dur);
      var c, exp := if secs == 0 then 128 else Min(secs, 127), if secs >= 128 then Some(now + dur)
        else a.timers[id].expiration;
      WF(b) && Planned(b, T, id, Plan(T, c, exp)) && (exp.None? ==> Counts(b, id, c))
  {
    var op := Op.Reschedule(now, dur, id);
    ApplyKeeps(a, op, NONE);
    RescheduleStores(a, now, dur, id, NONE);
    var b, s, c := Apply(a, op), Target(a, op), if RoundToSecs(dur) == 0 then 128 else Min(RoundToSecs(dur), 127);
    assert id in b.buckets[s] && TicksTo(b.current, s) == c;
    assert PlannedAt(b, T, id, s, Plan(T, c, b.timers[id].expiration));
    assert b.timers[id].expiration.None? ==> CountsAt(b, id, s, c);
  }

  // `reschedule` with a duration that rounds to 128 s or more: exactly one tick runs the timer, in
  // (end - 1.5 s, end - 0.5 s], as long as no tick fails. A stored expiration is forgotten.
  lemma RescheduleLong(a: Wheel, now: nat, dur: nat, id: nat, T: nat, rounds: seq<Round>) returns (n: nat)
    requires WF(a) && Allowed(a, Op.Reschedule(now, dur, id), NONE) && RoundToSecs(dur) >= 128 && T <= now
    ensures WF(Apply(a, Op.Reschedule(now, dur, id)))
    ensures var F, end := T + (n + 1) * SEC, now + dur; end - SEC - SEC / 2 < F <= end - SEC / 2
    ensures RunsOnce(Apply(a, Op.Reschedule(now, dur, id)), id, T, rounds, n)
  {
    ReschedulePlan(a, now, dur, id, T);
    assert dur >= MASK * SEC + SEC / 2;
    hide Planned, Apply, Allowed, RunsOnce, Plan, RoundToSecs;
    n := PlanLong(T, now + dur);
    PlannedRunsOnce(Apply(a, Op.Reschedule(now, dur, id)), id, T, rounds, n);
  }

  // A timer that stores nothing, rescheduled by a duration that rounds to at most 127 s: exactly the tick of that
  // number runs it, for 0 the 128th, whatever the clock shows.
  lemma RescheduleCounts(a: Wheel, now: nat, dur: nat, id: nat, rounds: seq<Round>, k: nat)
    requires WF(a) && Allowed(a, Op.Reschedule(now, dur, id), NONE) && RoundToSecs(dur) <= 127
    ensures id in a.timers && WF(Apply(a, Op.Reschedule(now, dur, id)))
    ensures var b, secs := Apply(a, Op.Reschedule(now, dur, id)), RoundToSecs(dur);
      a.timers[id].expiration.None? && RunRounds(b, rounds).Some?
        && (forall i :: 0 <= i < |rounds| ==> Steady(rounds[i], id))
      && k < |rounds| ==>
      CountRuns(RunRounds(b, rounds).value[k], id) == if k + 1 == (if secs == 0 then 128 else secs) then 1 else 0
  {
    ReschedulePlan(a, now, dur, id, 0);
    var b, secs := Apply(a, Op.Reschedule(now, dur, id)), RoundToSecs(dur);
    hide Planned, Apply, Allowed, Counts, RoundToSecs, RunRounds, CountRuns, Steady, WF;
    if a.timers[id].expiration.None? && RunRounds(b, rounds).Some?
      && (forall i :: 0 <= i < |rounds| ==> Steady(rounds[i], id))
      && k < |rounds| {
      RunsAtCount(b, rounds, id, if secs == 0 then 128 else secs, k);
    }
  }

  // A shorter one leaves a stored expiration in force. At the end of the new duration, 128 s for one that rounds to
  // nothing, the timer is due exactly if that expiration is less than a second away. A second and a half and more away,
  // the timer is run later, near the expiration. In between it rejoins the bucket that is being drained: it is run by
  // that tick, or lost if nothing else is left in the bucket.
  lemma RescheduleHonoured(a: Wheel, now: nat, dur: nat, id: nat, T: nat) returns (F: nat)
    requires WF(a) && Allowed(a, Op.Reschedule(now, dur, id), NONE) && RoundToSecs(dur) <= 127
    ensures id in a.timers && WF(Apply(a, Op.Reschedule(now, dur, id)))
    ensures Planned(Apply(a, Op.Reschedule(now, dur, id)), T, id, F)
    ensures var end := T + (if RoundToSecs(dur) == 0 then 128 else RoundToSecs(dur)) * SEC;
      var exp := a.timers[id].expiration;
      && (F == end && Due(a.timers[id], end) <==> exp.None? || exp.value < end + SEC)
      && (F > end <==> exp.Some? && exp.value >= end + SEC + SEC / 2)
      && (F > end ==> exp.value - SEC - SEC / 2 < F <= exp.value - SEC / 2)
      && (F == end && !Due(a.timers[id], end) <==> Rejoins(a.timers[id], end))
  {
    ReschedulePlan(a, now, dur, id, T);
    var c, exp := if RoundToSecs(dur) == 0 then 128 else RoundToSecs(dur), a.timers[id].expiration;
    hide Planned, Apply, Allowed;
    F := Plan(T, c, exp);
    HonouredPlan(T, c, exp);
    RejoinsIff(a.timers[id], T + c * SEC);
  }

  lemma HonouredPlan(T: nat, c: nat, exp: Option<nat>)
    requires c >= 1
    ensures var F, end := Plan(T, c, exp), T + c * SEC;
      if exp.Some? && exp.value >= end + SEC + SEC / 2
      then F > end && exp.value - SEC - SEC / 2 < F <= exp.value - SEC / 2
      else F == end
  {
    var end := T + c * SEC;
    if exp.Some? && exp.value >= end + SEC {
      RoundBounds(exp.value - end);
      if exp.value >= end + SEC + SEC / 2 {
        PlanBounds(T, c, exp.value);
        if RoundToSecs(exp.value - end) > MASK { assert Plan(end, MASK - 1, exp) > end; }
      }
    }
  }
}
