// src/reactor/timer.rs: the timers of the event loop, as a heap of expirations over a slab of tasks.
module TimerQueue {
  import opened Bits
  import opened Slabs

  datatype TaskState = Oneshot | Periodic(period: nat) | Expired | Cancelled

  datatype Task = Task(id: nat, state: TaskState)

  datatype Expiration = Expiration(at: nat, id: nat)

  // The tasks by their index in the slab, and the heap, whose order does not matter.
  datatype Timers = Timers(tasks: map<nat, Task>, heap: seq<Expiration>)

  ghost predicate HasEntry(heap: seq<Expiration>, id: nat) {
    exists i :: 0 <= i < |heap| && heap[i].id == id
  }

  predicate OneEach(heap: seq<Expiration>) {
    forall i, j :: 0 <= i < j < |heap| ==> heap[i].id != heap[j].id
  }

  // Every entry of the heap names a task that has not expired, and every such task has exactly one entry.
  ghost predicate Consistent(q: Timers) {
    && OneEach(q.heap)
    && (forall i :: 0 <= i < |q.heap| ==> q.heap[i].id in q.tasks && !q.tasks[q.heap[i].id].state.Expired?)
    && (forall id: nat :: id in q.tasks && !q.tasks[id].state.Expired? ==> HasEntry(q.heap, id))
  }

  // ---- the transitions ----

  function Without(heap: seq<Expiration>, i: nat): (r: seq<Expiration>)
    requires i < |heap|
    ensures |r| == |heap| - 1
  {
    heap[..i] + heap[i + 1..]
  }

  function SetState(q: Timers, id: nat, s: TaskState): (r: Timers)
    requires id in q.tasks
  {
    q.(tasks := q.tasks[id := q.tasks[id].(state := s)])
  }

  // add and add_periodic
  function Added(q: Timers, id: nat, at: nat, task: Task): (r: Timers) {
    Timers(q.tasks[id := task], q.heap + [Expiration(at, id)])
  }

  // A task that waits in the heap is marked, for the loop to remove; an expired one is removed at once.
  function AfterCancel(q: Timers, id: nat): (r: Timers)
    requires id in q.tasks
  {
    match q.tasks[id].state
    case Expired => q.(tasks := q.tasks - {id})
    case Cancelled => q
    case _ => SetState(q, id, Cancelled)
  }

  // The i-th entry is taken out of the heap: its task expires, or is removed if it was cancelled.
  function AfterPop(q: Timers, i: nat): (r: Timers)
    requires i < |q.heap| && q.heap[i].id in q.tasks
  {
    var id, heap := q.heap[i].id, Without(q.heap, i);
    if q.tasks[id].state.Cancelled? then Timers(q.tasks - {id}, heap) else SetState(q, id, Expired).(heap := heap)
  }

  // A periodic task that has been run waits for the next time.
  function AfterRun(q: Timers, e: Expiration, period: nat): (r: Timers)
    requires e.id in q.tasks
  {
    var p := SetState(q, e.id, Periodic(period));
    p.(heap := p.heap + [Expiration(e.at + period, e.id)])
  }

  lemma AppendEntry(heap: seq<Expiration>, e: Expiration)
    requires OneEach(heap) && !HasEntry(heap, e.id)
    ensures OneEach(heap + [e]) && (forall id: nat :: HasEntry(heap + [e], id) <==> HasEntry(heap, id) || id == e.id)
  {
    var h := heap + [e];
    assert h[|heap|] == e;
    forall id: nat ensures HasEntry(h, id) <==> HasEntry(heap, id) || id == e.id {
      if HasEntry(heap, id) {
        var i :| 0 <= i < |heap| && heap[i].id == id;
        assert h[i].id == id;
      }
    }
  }

  lemma RemoveEntry(heap: seq<Expiration>, i: nat)
    requires OneEach(heap) && i < |heap|
    ensures var h := Without(heap, i);
      OneEach(h) && (forall id: nat :: HasEntry(h, id) <==> HasEntry(heap, id) && id != heap[i].id)
  {
    var h := Without(heap, i);
    forall id: nat ensures HasEntry(h, id) <==> HasEntry(heap, id) && id != heap[i].id {
      if HasEntry(heap, id) && id != heap[i].id {
        var j :| 0 <= j < |heap| && heap[j].id == id;
        assert h[if j < i then j else j - 1].id == id;
      }
      if HasEntry(h, id) {
        var j :| 0 <= j < |h| && h[j].id == id;
        assert heap[if j < i then j else j + 1].id == id;
      }
    }
  }

  lemma ConsistentIff(q: Timers)
    ensures Consistent(q) <==>
      OneEach(q.heap) && forall id: nat :: HasEntry(q.heap, id) <==> id in q.tasks && !q.tasks[id].state.Expired?
  {
    if OneEach(q.heap) && forall id: nat :: HasEntry(q.heap, id) <==> id in q.tasks && !q.tasks[id].state.Expired? {
      forall i | 0 <= i < |q.heap| ensures q.heap[i].id in q.tasks && !q.tasks[q.heap[i].id].state.Expired? {
        assert HasEntry(q.heap, q.heap[i].id);
      }
    }
  }

  lemma AddedConsistent(q: Timers, id: nat, at: nat, task: Task)
    requires Consistent(q) && id !in q.tasks && !task.state.Expired?
    ensures Consistent(Added(q, id, at, task))
  {
    ConsistentIff(q);
    AppendEntry(q.heap, Expiration(at, id));
    ConsistentIff(Added(q, id, at, task));
  }

  lemma CancelConsistent(q: Timers, id: nat)
    requires Consistent(q) && id in q.tasks
    ensures Consistent(AfterCancel(q, id))
  {
    ConsistentIff(q);
    ConsistentIff(AfterCancel(q, id));
  }

  lemma PopConsistent(q: Timers, i: nat)
    requires Consistent(q) && i < |q.heap|
    ensures q.heap[i].id in q.tasks && !q.tasks[q.heap[i].id].state.Expired? && Consistent(AfterPop(q, i))
  {
    ConsistentIff(q);
    RemoveEntry(q.heap, i);
    ConsistentIff(AfterPop(q, i));
  }

  lemma RunConsistent(q: Timers, e: Expiration, period: nat)
    requires Consistent(q) && e.id in q.tasks && q.tasks[e.id].state.Expired?
    ensures Consistent(AfterRun(q, e, period))
  {
    ConsistentIff(q);
    AppendEntry(q.heap, Expiration(e.at + period, e.id));
    ConsistentIff(AfterRun(q, e, period));
  }

  // ---- the timers that the program holds ----

  // A periodic task whose callback is running, and the entry it was taken from.
  datatype Running = Running(e: Expiration, period: nat)

  // `handles`: the slots of the `Timer`s and `PeriodicTimer`s that are scheduled and have not been dropped. Each of
  // them has its slot accessed without a check.
  datatype World = World(q: Timers, handles: set<nat>, running: Option<Running>)

  // A timer is held for every slot that is not cancelled, and for no other. The task that is running is one of them.
  ghost predicate Held(w: World) {
    && (forall id: nat :: id in w.handles <==> id in w.q.tasks && !w.q.tasks[id].state.Cancelled?)
    && (w.running.Some? ==> w.running.value.e.id in w.handles && w.q.tasks[w.running.value.e.id].state.Expired?)
  }

  ghost predicate Sound(w: World) {
    Consistent(w.q) && Held(w)
  }

  datatype Event =
    | Adds(id: nat, at: nat, task: Task)
    | Drops(id: nat)
    | Pops(i: nat)
    | Requeues
    | Exits  // the loop is left while the task runs

  // What happens to the queue. None: it cannot happen, but for the drop of a periodic timer in its own callback (see
  // DropInCallback).
  function Next(w: World, ev: Event): (r: Option<World>) {
    match ev
    case Adds(id, at, task) =>
      if id in w.q.tasks || task.state.Expired? || task.state.Cancelled? then None
      else Some(w.(q := Added(w.q, id, at, task), handles := w.handles + {id}))
    case Drops(id) =>
      if id !in w.handles || id !in w.q.tasks || (w.running.Some? && w.running.value.e.id == id) then None
      else Some(w.(q := AfterCancel(w.q, id), handles := w.handles - {id}))
    case Pops(i) =>
      if i >= |w.q.heap| || w.q.heap[i].id !in w.q.tasks || w.running.Some? then None
      else
        var s := w.q.tasks[w.q.heap[i].id].state;
        Some(w.(q := AfterPop(w.q, i), running := if s.Periodic? then Some(Running(w.q.heap[i], s.period)) else None))
    case Requeues =>
      if w.running.None? || w.running.value.e.id !in w.q.tasks then None
      else Some(w.(q := AfterRun(w.q, w.running.value.e, w.running.value.period), running := None))
    case Exits => Some(w.(running := None))
  }

  lemma NextSound(w: World, ev: Event)
    requires Sound(w) && Next(w, ev).Some?
    ensures Sound(Next(w, ev).value)
  {
    hide Consistent;
    match ev {
      case Adds(id, at, task) => AddedConsistent(w.q, id, at, task);
      case Drops(id) => CancelConsistent(w.q, id);
      case Pops(i) => PopConsistent(w.q, i);
      case Requeues => RunConsistent(w.q, w.running.value.e, w.running.value.period);
      case Exits =>
    }
  }

  function AfterAll(w: World, evs: seq<Event>): (r: Option<World>)
    decreases |evs|
  {
    if evs == [] then Some(w)
    else if Next(w, evs[0]).None? then None
    else AfterAll(Next(w, evs[0]).value, evs[1..])
  }

  lemma {:induction false} AlwaysSound(w: World, evs: seq<Event>)
    requires Sound(w) && AfterAll(w, evs).Some?
    ensures Sound(AfterAll(w, evs).value)
    decreases |evs|
  {
    if evs != [] {
      NextSound(w, evs[0]);
      AlwaysSound(Next(w, evs[0]).value, evs[1..]);
    }
  }

  // Whatever has happened since the queue was made: every timer held has its slot in use, no slot outlives both its
  // timer and its entry in the heap, and the running task is still there for the loop to come back to.
  lemma NoSlotOutlives(evs: seq<Event>, id: nat)
    requires AfterAll(World(Timers(map[], []), {}, None), evs).Some?
    ensures var w := AfterAll(World(Timers(map[], []), {}, None), evs).value;
      && (id in w.q.tasks <==> id in w.handles || HasEntry(w.q.heap, id))
      && (id in w.q.tasks && id !in w.handles ==> w.q.tasks[id].state.Cancelled?)
      && (forall i, j :: 0 <= i < j < |w.q.heap| && w.q.heap[i].id == id ==> w.q.heap[j].id != id)
      && (w.running.Some? ==> w.running.value.e.id in w.q.tasks && w.q.tasks[w.running.value.e.id].state.Expired?)
  {
    var w := AfterAll(World(Timers(map[], []), {}, None), evs).value;
    AlwaysSound(World(Timers(map[], []), {}, None), evs);
    ConsistentIff(w.q);
  }

  // How often the task of slot `id` is run.
  function RunCount(w: World, evs: seq<Event>, id: nat): (c: nat)
    decreases |evs|
  {
    if evs == [] || Next(w, evs[0]).None? then 0
    else
      (if evs[0].Pops? && w.q.heap[evs[0].i].id == id && !w.q.tasks[id].state.Cancelled? then 1 else 0)
      + RunCount(Next(w, evs[0]).value, evs[1..], id)
  }

  // While a one-shot timer is held, its task is run at most once, whatever else happens.
  lemma {:induction false} OneshotOnce(w: World, evs: seq<Event>, id: nat)
    requires Sound(w) && id in w.handles && id in w.q.tasks && (w.running.Some? ==> w.running.value.e.id != id)
    requires w.q.tasks[id].state.Oneshot? || w.q.tasks[id].state.Expired?
    requires forall k :: 0 <= k < |evs| ==> evs[k] != Drops(id)
    ensures RunCount(w, evs, id) <= if w.q.tasks[id].state.Expired? then 0 else 1
    decreases |evs|
  {
    if evs != [] && Next(w, evs[0]).Some? {
      NextSound(w, evs[0]);
      NextOneshot(w, evs[0], id);
      OneshotOnce(Next(w, evs[0]).value, evs[1..], id);
    }
  }

  lemma NextOneshot(w: World, ev: Event, id: nat)
    requires Sound(w) && id in w.handles && id in w.q.tasks && (w.running.Some? ==> w.running.value.e.id != id)
    requires w.q.tasks[id].state.Oneshot? || w.q.tasks[id].state.Expired?
    requires ev != Drops(id) && Next(w, ev).Some?
    ensures var v := Next(w, ev).value;
      && id in v.handles && id in v.q.tasks && (v.running.Some? ==> v.running.value.e.id != id)
      && (if ev.Pops? && w.q.heap[ev.i].id == id then w.q.tasks[id].state.Oneshot? && v.q.tasks[id].state.Expired?
          else v.q.tasks[id] == w.q.tasks[id])
  {
  }

  // A periodic timer dropped in its own callback (say by `take`): its slot is freed at once, and the loop comes back
  // to a slot that is not in use. If a timer started since has got the slot, the loop takes it for the old one: it
  // becomes periodic and has two entries.
  lemma DropInCallback(w: World, at: nat, task: Task)
    requires Sound(w) && w.running.Some?
    ensures var id := w.running.value.e.id;
      && id in w.q.tasks && Consistent(AfterCancel(w.q, id)) && id !in AfterCancel(w.q, id).tasks
      && (!task.state.Expired? ==>
            var q := Added(AfterCancel(w.q, id), id, at, task);
            && Consistent(q) && !Consistent(AfterRun(q, w.running.value.e, w.running.value.period)))
  {
    var e := w.running.value.e;
    var q := AfterCancel(w.q, e.id);
    CancelConsistent(w.q, e.id);
    if !task.state.Expired? {
      AddedConsistent(q, e.id, at, task);
      var r := AfterRun(Added(q, e.id, at, task), e, w.running.value.period);
      assert r.heap[|q.heap|].id == r.heap[|q.heap| + 1].id;
    }
  }

  // ---- what a poll at a fixed time runs ----

  // The nominal times up to `now` of a periodic task.
  function Times(at: nat, period: nat, now: nat): (r: seq<nat>)
    requires period > 0
    decreases now + 1 - at
  {
    if at > now then [] else [at] + Times(at + period, period, now)
  }

  lemma {:induction false} TimesAre(at: nat, period: nat, now: nat)
    requires period > 0
    ensures |Times(at, period, now)| == if at > now then 0 else (now - at) / period + 1
    ensures forall k :: 0 <= k < |Times(at, period, now)| ==> Times(at, period, now)[k] == at + k * period
    decreases now + 1 - at
  {
    if at <= now {
      var t := Times(at + period, period, now);
      TimesAre(at + period, period, now);
      if at + period <= now {
        OneMore(now - (at + period), period);
      } else {
        ModUnique(now - at, period, 0, now - at);
      }
      forall k | 0 <= k < |t| + 1 ensures ([at] + t)[k] == at + k * period {
        if k > 0 { assert t[k - 1] == at + period + (k - 1) * period == at + k * period; }
      }
    }
  }

  lemma OneMore(x: nat, p: nat)
    requires p > 0
    ensures (x + p) / p == x / p + 1
  {
    assert x + p == (x / p + 1) * p + x % p;
    ModUnique(x + p, p, x / p + 1, x % p);
  }

  // The times at which the task of an entry will be run, if callbacks do nothing.
  function Due(s: TaskState, at: nat, now: nat): (r: seq<nat>) {
    match s
    case Oneshot => if at <= now then [at] else []
    case Periodic(p) => if p > 0 then Times(at, p, now) else []
    case _ => []
  }

  ghost function AtOf(heap: seq<Expiration>, id: nat): (r: Option<nat>)
    ensures r.Some? <==> HasEntry(heap, id)
  {
    if HasEntry(heap, id) then
      var i :| 0 <= i < |heap| && heap[i].id == id;
      Some(heap[i].at)
    else None
  }

  lemma AtOfIs(heap: seq<Expiration>, i: nat)
    requires OneEach(heap) && i < |heap|
    ensures AtOf(heap, heap[i].id) == Some(heap[i].at)
  {
    assert HasEntry(heap, heap[i].id);
    forall j | 0 <= j < |heap| && heap[j].id == heap[i].id ensures j == i { }
  }

  lemma AtOfAppend(heap: seq<Expiration>, e: Expiration, id: nat)
    requires OneEach(heap) && !HasEntry(heap, e.id)
    ensures AtOf(heap + [e], id) == if id == e.id then Some(e.at) else AtOf(heap, id)
  {
    AppendEntry(heap, e);
    if id == e.id {
      AtOfIs(heap + [e], |heap|);
    } else if HasEntry(heap, id) {
      var i :| 0 <= i < |heap| && heap[i].id == id;
      AtOfIs(heap, i);
      AtOfIs(heap + [e], i);
    }
  }

  lemma AtOfWithout(heap: seq<Expiration>, i: nat, id: nat)
    requires OneEach(heap) && i < |heap|
    ensures AtOf(Without(heap, i), id) == if id == heap[i].id then None else AtOf(heap, id)
  {
    RemoveEntry(heap, i);
    if id != heap[i].id && HasEntry(heap, id) {
      var j :| 0 <= j < |heap| && heap[j].id == id;
      AtOfIs(heap, j);
      AtOfIs(Without(heap, i), if j < i then j else j - 1);
    }
  }

  // The times at which task `id` will be run.
  ghost function DueOf(q: Timers, id: nat, now: nat): (r: seq<nat>) {
    match AtOf(q.heap, id)
    case None => []
    case Some(at) => if id in q.tasks then Due(q.tasks[id].state, at, now) else []
  }

  // A timer that is added is due at `at`, if it is periodic also at `at` + `period` and so on, and no other is due
  // when it was not.
  lemma AddedDue(q: Timers, id: nat, at: nat, task: Task, j: nat, now: nat)
    requires Consistent(q) && id !in q.tasks && !task.state.Expired? && !task.state.Cancelled?
    ensures j != id ==> DueOf(Added(q, id, at, task), j, now) == DueOf(q, j, now)
    ensures var due := DueOf(Added(q, id, at, task), id, now);
      && (task.state.Oneshot? ==> due == if at <= now then [at] else [])
      && (task.state.Periodic? && task.state.period > 0 ==> Regular(due, at, task.state.period, now))
  {
    AtOfAppend(q.heap, Expiration(at, id), j);
    AtOfAppend(q.heap, Expiration(at, id), id);
    if task.state.Periodic? && task.state.period > 0 { TimesAre(at, task.state.period, now); }
  }

  // All times `at` + k * `period` up to `now`.
  ghost predicate Regular(due: seq<nat>, at: nat, period: nat, now: nat)
    requires period > 0
  {
    && |due| == (if at > now then 0 else (now - at) / period + 1)
    && forall k :: 0 <= k < |due| ==> due[k] == at + k * period
  }

  // While the task of an entry runs, its timer is not due; a periodic one then is again from one period later on.
  lemma PoppedDue(q: Timers, i: nat, j: nat, now: nat)
    requires Consistent(q) && i < |q.heap| && q.heap[i].id in q.tasks
    ensures DueOf(AfterPop(q, i), j, now) == if j == q.heap[i].id then [] else DueOf(q, j, now)
  {
    AtOfWithout(q.heap, i, j);
  }

  lemma RequeuedDue(q: Timers, e: Expiration, period: nat, j: nat, now: nat)
    requires Consistent(q) && e.id in q.tasks && q.tasks[e.id].state.Expired? && period > 0
    ensures j != e.id ==> DueOf(AfterRun(q, e, period), j, now) == DueOf(q, j, now)
    ensures Regular(DueOf(AfterRun(q, e, period), e.id, now), e.at + period, period, now)
  {
    ConsistentIff(q);
    AtOfAppend(q.heap, Expiration(e.at + period, e.id), j);
    AtOfAppend(q.heap, Expiration(e.at + period, e.id), e.id);
    TimesAre(e.at + period, period, now);
  }

  // A timer that is dropped is due at no time, and for the others nothing changes.
  lemma CancelledDue(q: Timers, id: nat, j: nat, now: nat)
    requires Consistent(q) && id in q.tasks
    ensures DueOf(AfterCancel(q, id), j, now) == if j == id then [] else DueOf(q, j, now)
  {
    ConsistentIff(q);
  }

  // One turn of the loop of `poll`, with a callback that does nothing.
  function AfterTurn(q: Timers, i: nat): (r: Timers)
    requires i < |q.heap| && q.heap[i].id in q.tasks
  {
    var e := q.heap[i];
    var s := q.tasks[e.id].state;
    if s.Periodic? then AfterRun(AfterPop(q, i), e, s.period) else AfterPop(q, i)
  }

  predicate PositivePeriods(q: Timers) {
    forall id: nat :: id in q.tasks && q.tasks[id].state.Periodic? ==> q.tasks[id].state.period > 0
  }

  lemma TurnConsistent(q: Timers, i: nat)
    requires Consistent(q) && i < |q.heap|
    ensures q.heap[i].id in q.tasks && Consistent(AfterTurn(q, i))
      && (PositivePeriods(q) ==> PositivePeriods(AfterTurn(q, i)))
  {
    PopConsistent(q, i);
    var e := q.heap[i];
    if q.tasks[e.id].state.Periodic? { RunConsistent(AfterPop(q, i), e, q.tasks[e.id].state.period); }
  }

  lemma NoEntry(q: Timers, id: nat)
    requires Consistent(q) && (id in q.tasks ==> q.tasks[id].state.Expired?)
    ensures OneEach(q.heap) && !HasEntry(q.heap, id)
  {
    ConsistentIff(q);
  }

  // A turn runs the first of the times of the popped entry, unless that was cancelled, and of no other.
  lemma TurnDue(q: Timers, i: nat, id: nat, now: nat)
    requires Consistent(q) && PositivePeriods(q) && i < |q.heap| && q.heap[i].at <= now && q.heap[i].id in q.tasks
    ensures DueOf(q, id, now)
      == (if id == q.heap[i].id && !q.tasks[id].state.Cancelled? then [q.heap[i].at] else [])
         + DueOf(AfterTurn(q, i), id, now)
  {
    hide AtOf, OneEach, HasEntry, Without, Times;
    var e := q.heap[i];
    var s, p := q.tasks[e.id].state, AfterPop(q, i);
    PopConsistent(q, i);
    AtOfIs(q.heap, i);
    AtOfWithout(q.heap, i, id);
    if s.Periodic? {
      NoEntry(p, e.id);
      AtOfAppend(p.heap, Expiration(e.at + s.period, e.id), id);
      TimesFirst(e.at, s.period, now);
    }
    assert [] + DueOf(AfterTurn(q, i), id, now) == DueOf(AfterTurn(q, i), id, now);
  }

  lemma TimesFirst(at: nat, period: nat, now: nat)
    requires period > 0 && at <= now
    ensures Times(at, period, now) == [at] + Times(at + period, period, now)
  {
  }

  // ---- how many turns there are ----

  // How often an entry, and those that follow it for its task, will still be popped.
  function Cost(tasks: map<nat, Task>, e: Expiration, now: nat): (c: nat) {
    if e.at > now then 0
    else if e.id in tasks && tasks[e.id].state.Periodic? && tasks[e.id].state.period > 0
      then |Times(e.at, tasks[e.id].state.period, now)|
    else 1
  }

  function Work(heap: seq<Expiration>, tasks: map<nat, Task>, now: nat): (w: nat) {
    if heap == [] then 0 else Cost(tasks, heap[0], now) + Work(heap[1..], tasks, now)
  }

  lemma {:induction false} WorkAppend(heap: seq<Expiration>, e: Expiration, tasks: map<nat, Task>, now: nat)
    ensures Work(heap + [e], tasks, now) == Work(heap, tasks, now) + Cost(tasks, e, now)
  {
    if heap == [] {
      assert [] + [e] == [e];
    } else {
      assert (heap + [e])[1..] == heap[1..] + [e];
      WorkAppend(heap[1..], e, tasks, now);
    }
  }

  lemma {:induction false} WorkWithout(heap: seq<Expiration>, i: nat, tasks: map<nat, Task>, now: nat)
    requires i < |heap|
    ensures Work(heap, tasks, now) == Work(Without(heap, i), tasks, now) + Cost(tasks, heap[i], now)
  {
    if i == 0 {
      assert Without(heap, 0) == heap[1..];
    } else {
      assert Without(heap, i)[0] == heap[0] && Without(heap, i)[1..] == Without(heap[1..], i - 1);
      WorkWithout(heap[1..], i - 1, tasks, now);
    }
  }

  lemma {:induction false} WorkSame(heap: seq<Expiration>, t: map<nat, Task>, u: map<nat, Task>, now: nat)
    requires forall i :: 0 <= i < |heap| ==> Cost(t, heap[i], now) == Cost(u, heap[i], now)
    ensures Work(heap, t, now) == Work(heap, u, now)
  {
    if heap != [] {
      assert Cost(t, heap[0], now) == Cost(u, heap[0], now);
      forall i | 0 <= i < |heap[1..]| ensures Cost(t, heap[1..][i], now) == Cost(u, heap[1..][i], now) {
        assert heap[1..][i] == heap[i + 1];
      }
      WorkSame(heap[1..], t, u, now);
    }
  }

  lemma TurnWork(q: Timers, i: nat, now: nat)
    requires Consistent(q) && PositivePeriods(q) && i < |q.heap| && q.heap[i].at <= now && q.heap[i].id in q.tasks
    ensures Work(AfterTurn(q, i).heap, AfterTurn(q, i).tasks, now) < Work(q.heap, q.tasks, now)
  {
    var e, q' := q.heap[i], AfterTurn(q, i);
    var s, rest := q.tasks[e.id].state, Without(q.heap, i);
    WorkWithout(q.heap, i, q.tasks, now);
    RemoveEntry(q.heap, i);
    forall j | 0 <= j < |rest| ensures Cost(q.tasks, rest[j], now) == Cost(q'.tasks, rest[j], now) {
      assert HasEntry(rest, rest[j].id);
    }
    WorkSame(rest, q.tasks, q'.tasks, now);
    if s.Periodic? {
      TimesFirst(e.at, s.period, now);
      WorkAppend(rest, Expiration(e.at + s.period, e.id), q'.tasks, now);
    }
  }

  // ---- the queue ----

  // The nominal times in the log at which task `id` was run.
  function TimesOf(log: seq<Expiration>, id: nat): (r: seq<nat>) {
    if log == [] then [] else (if log[0].id == id then [log[0].at] else []) + TimesOf(log[1..], id)
  }

  lemma {:induction false} TimesOfMore(log: seq<Expiration>, e: Expiration, id: nat)
    ensures TimesOf(log + [e], id) == TimesOf(log, id) + if e.id == id then [e.at] else []
  {
    if log == [] {
      assert [] + [e] == [e];
      assert TimesOf([e][1..], id) == [];
    } else {
      assert (log + [e])[1..] == log[1..] + [e] && (log + [e])[0] == log[0];
      TimesOfMore(log[1..], e, id);
      assert TimesOf(log + [e], id) == (if log[0].id == id then [log[0].at] else []) + TimesOf(log[1..] + [e], id);
    }
  }

  predicate Ordered(log: seq<Expiration>) {
    forall i, j :: 0 <= i < j < |log| ==> log[i].at <= log[j].at
  }

  // What the task of a timer does: it starts timers, and drops timers.
  datatype Call = NewTimer(at: nat, task: nat) | NewPeriodic(at: nat, period: nat, task: nat) | DropTimer(id: nat)

  // The clock at a turn of the loop, what the task does that the turn runs, if it does, and whether the loop is left
  // then.
  datatype Callback = Callback(now: nat, calls: seq<Call>, exit: bool)

  // There is no index left for another task.
  ghost predicate Full(q: Timers) {
    forall id: nat :: id < INVALID_INDEX ==> id in q.tasks
  }

  ghost predicate Started(w: World, at: nat, task: Task, v: World) {
    (exists id: nat :: Next(w, Adds(id, at, task)) == Some(v)) || (Full(w.q) && v == w)
  }

  // What a call does. A task can only drop a timer that it holds, and the one whose callback it is it keeps.
  ghost predicate Does(w: World, c: Call, v: World) {
    match c
    case NewTimer(at, task) => Started(w, at, Task(task, Oneshot), v)
    case NewPeriodic(at, period, task) => Started(w, at, Task(task, Periodic(period)), v)
    case DropTimer(id) =>
      if id in w.handles && (w.running.None? || w.running.value.e.id != id) then Next(w, Drops(id)) == Some(v)
        else v == w
  }

  ghost predicate DoesAll(w: World, calls: seq<Call>, v: World)
    decreases |calls|
  {
    if calls == [] then v == w
    else
      var first, last := calls[..|calls| - 1], calls[|calls| - 1];
      exists m: World :: DoesAll(w, first, m) && Does(m, last, v)
  }

  lemma DoesMore(w: World, calls: seq<Call>, m: World, c: Call, v: World)
    requires DoesAll(w, calls, m) && Does(m, c, v)
    ensures DoesAll(w, calls + [c], v)
  {
    assert (calls + [c])[..|calls|] == calls;
  }

  // What a turn came to: the entry that was taken out of the heap, and whether its task was run.
  datatype Turned = Turned(e: Expiration, ran: bool)

  // After its task has been run, a periodic timer waits again, unless the loop is left.
  ghost predicate Goes(u: World, exit: bool, v: World) {
    if exit then v == u.(running := None)
    else if u.running.Some? then Next(u, Requeues) == Some(v)
    else v == u
  }

  // A turn takes out the first entry, which is due, and runs its task if the timer is still held.
  ghost predicate IsTurn(w: World, cb: Callback, t: Turned, v: World) {
    && t.e.at <= cb.now && (forall j :: 0 <= j < |w.q.heap| ==> t.e.at <= w.q.heap[j].at)
    && (t.ran <==> t.e.id in w.handles)
    && exists i: nat, p: World ::
         && i < |w.q.heap| && w.q.heap[i] == t.e && Next(w, Pops(i)) == Some(p)
         && if !t.ran then v == p else exists u: World :: DoesAll(p, cb.calls, u) && Goes(u, cb.exit, v)
  }

  // The turns of a poll: what was before each of them, and in the end.
  ghost predicate Trace(ws: seq<World>, log: seq<Turned>, env: nat -> Callback) {
    && |ws| == |log| + 1
    && forall k: nat :: k < |log| ==> IsTurn(ws[k], env(k), log[k], ws[k + 1])
  }

  lemma TraceStarts(w: World, env: nat -> Callback)
    ensures Trace([w], [], env)
  {
  }

  lemma TraceGoesOn(ws: seq<World>, log: seq<Turned>, env: nat -> Callback, t: Turned, v: World)
    requires Trace(ws, log, env) && IsTurn(ws[|log|], env(|log|), t, v)
    ensures Trace(ws + [v], log + [t], env)
  {
    hide IsTurn;
  }

  // ---- what any callbacks leave alone ----

  // A one-shot timer is held and waits for `at`, or it has been run and is still held.
  ghost predicate Waits(w: World, id: nat, at: nat) {
    && id in w.handles && id in w.q.tasks && w.q.tasks[id].state.Oneshot? && AtOf(w.q.heap, id) == Some(at)
  }

  ghost predicate HasRun(w: World, id: nat) {
    id in w.handles && id in w.q.tasks && w.q.tasks[id].state.Expired?
  }

  predicate Spares(calls: seq<Call>, id: nat) {
    forall k :: 0 <= k < |calls| ==> calls[k] != DropTimer(id)
  }

  // What the task of another timer does changes nothing about a timer that it does not drop.
  lemma DoesFrame(w: World, c: Call, v: World, id: nat)
    requires Sound(w) && Does(w, c, v) && c != DropTimer(id) && id in w.handles && id in w.q.tasks
    ensures Sound(v) && v.running == w.running && id in v.handles && id in v.q.tasks
    ensures v.q.tasks[id] == w.q.tasks[id] && AtOf(v.q.heap, id) == AtOf(w.q.heap, id)
  {
    match c {
      case NewTimer(at, task) => StartedFrame(w, at, Task(task, Oneshot), v, id);
      case NewPeriodic(at, period, task) => StartedFrame(w, at, Task(task, Periodic(period)), v, id);
      case DropTimer(i) => if v != w { NextSound(w, Drops(i)); }
    }
  }

  lemma StartedFrame(w: World, at: nat, task: Task, v: World, id: nat)
    requires Sound(w) && Started(w, at, task, v) && id in w.handles && id in w.q.tasks
    ensures Sound(v) && v.running == w.running && id in v.handles && id in v.q.tasks
    ensures v.q.tasks[id] == w.q.tasks[id] && AtOf(v.q.heap, id) == AtOf(w.q.heap, id)
  {
    if !(Full(w.q) && v == w) {
      var i: nat :| Next(w, Adds(i, at, task)) == Some(v);
      NextSound(w, Adds(i, at, task));
      ConsistentIff(w.q);
      AtOfAppend(w.q.heap, Expiration(at, i), id);
    }
  }

  lemma {:induction false} DoesAllFrame(w: World, calls: seq<Call>, v: World, id: nat)
    requires Sound(w) && DoesAll(w, calls, v) && Spares(calls, id) && id in w.handles && id in w.q.tasks
    ensures Sound(v) && v.running == w.running && id in v.handles && id in v.q.tasks
    ensures v.q.tasks[id] == w.q.tasks[id] && AtOf(v.q.heap, id) == AtOf(w.q.heap, id)
    decreases |calls|
  {
    if calls != [] {
      var first, last := calls[..|calls| - 1], calls[|calls| - 1];
      var m: World :| DoesAll(w, first, m) && Does(m, last, v);
      DoesAllFrame(w, first, m, id);
      DoesFrame(m, last, v, id);
    }
  }

  lemma GoesFrame(u: World, exit: bool, v: World, id: nat)
    requires Sound(u) && Goes(u, exit, v) && id in u.handles && id in u.q.tasks
    requires u.running.Some? ==> u.running.value.e.id != id
    ensures Sound(v) && v.running.None? && id in v.handles && id in v.q.tasks
    ensures v.q.tasks[id] == u.q.tasks[id] && AtOf(v.q.heap, id) == AtOf(u.q.heap, id)
  {
    if exit {
      NextSound(u, Exits);
    } else if u.running.Some? {
      var e := u.running.value.e;
      NextSound(u, Requeues);
      ConsistentIff(u.q);
      AtOfAppend(u.q.heap, Expiration(e.at + u.running.value.period, e.id), id);
    }
  }

  // A turn runs a waiting timer, and only at its time, or leaves it waiting; once run, it stays so.
  lemma TurnOneshot(w: World, cb: Callback, t: Turned, v: World, id: nat, at: nat)
    requires Sound(w) && w.running.None? && IsTurn(w, cb, t, v) && Spares(cb.calls, id)
    requires Waits(w, id, at) || HasRun(w, id)
    ensures Sound(v) && v.running.None?
    ensures Waits(w, id, at) ==> if t.e.id == id then t == Turned(Expiration(at, id), true) && HasRun(v, id)
      else Waits(v, id, at)
    ensures HasRun(w, id) ==> t.e.id != id && HasRun(v, id)
  {
    var i: nat, p: World :| i < |w.q.heap| && w.q.heap[i] == t.e && Next(w, Pops(i)) == Some(p)
      && if !t.ran then v == p else exists u: World :: DoesAll(p, cb.calls, u) && Goes(u, cb.exit, v);
    NextSound(w, Pops(i));
    AtOfIs(w.q.heap, i);
    AtOfWithout(w.q.heap, i, id);
    assert HasRun(w, id) ==> t.e.id != id;
    assert p.running.Some? ==> p.running.value.e.id != id;
    if t.ran {
      var u: World :| DoesAll(p, cb.calls, u) && Goes(u, cb.exit, v);
      DoesAllFrame(p, cb.calls, u, id);
      GoesFrame(u, cb.exit, v, id);
    }
  }

  function RunsOf(log: seq<Turned>, id: nat): (c: nat) {
    if log == [] then 0
    else RunsOf(log[..|log| - 1], id) + if log[|log| - 1].e.id == id && log[|log| - 1].ran then 1 else 0
  }

  // Over a whole poll with any clock and any callbacks that do not drop it, a one-shot timer is run once, or else it
  // still waits for its time in the heap. (So it has been run if the first entry left is later.)
  lemma {:induction false} OneshotInPoll(ws: seq<World>, log: seq<Turned>, env: nat -> Callback, id: nat, at: nat)
    requires Trace(ws, log, env) && Sound(ws[0]) && ws[0].running.None? && Waits(ws[0], id, at)
    requires forall k: nat :: k < |log| ==> Spares(env(k).calls, id)
    ensures var w := ws[|log|];
      && Sound(w) && w.running.None?
      && if Waits(w, id, at) then RunsOf(log, id) == 0 && exists i :: 0 <= i < |w.q.heap| && w.q.heap[i].at == at
         else RunsOf(log, id) == 1 && HasRun(w, id)
    decreases |log|
  {
    hide Sound, IsTurn, Waits, HasRun, Spares;
    if log != [] {
      var n := |log| - 1;
      var rest := log[..n];
      OneshotInPoll(ws[..n + 1], rest, env, id, at);
      assert ws[..n + 1][n] == ws[n];
      TurnOneshot(ws[n], env(n), log[n], ws[n + 1], id, at);
      if HasRun(ws[n], id) { NotBoth(ws[n], id, at); }
      if HasRun(ws[n + 1], id) { NotBoth(ws[n + 1], id, at); }
    }
    if Waits(ws[|log|], id, at) { StillThere(ws[|log|], id, at); }
  }

  // A periodic timer is held and waits for `at`.
  ghost predicate Repeats(w: World, id: nat, at: nat, period: nat) {
    && id in w.handles && id in w.q.tasks && w.q.tasks[id].state == Periodic(period) && AtOf(w.q.heap, id) == Some(at)
  }

  lemma PopPeriodic(w: World, i: nat, p: World, id: nat, at: nat, period: nat)
    requires Sound(w) && Next(w, Pops(i)) == Some(p) && Repeats(w, id, at, period) && i < |w.q.heap|
    ensures Sound(p) && id in p.handles && id in p.q.tasks
    ensures if w.q.heap[i].id == id then w.q.heap[i] == Expiration(at, id)
      && p.running == Some(Running(w.q.heap[i], period))
      else Repeats(p, id, at, period) && (p.running.Some? ==> p.running.value.e.id != id)
  {
    NextSound(w, Pops(i));
    AtOfIs(w.q.heap, i);
    AtOfWithout(w.q.heap, i, id);
  }

  lemma RequeuedAt(u: World, v: World, id: nat, at: nat, period: nat)
    requires Sound(u) && Next(u, Requeues) == Some(v) && u.running == Some(Running(Expiration(at, id), period))
    ensures Sound(v) && v.running.None? && Repeats(v, id, at + period, period)
  {
    NextSound(u, Requeues);
    ConsistentIff(u.q);
    AtOfAppend(u.q.heap, Expiration(at + period, id), id);
  }

  // What is left to do in a turn, after the task has been run.
  lemma RestPeriodic(p: World, calls: seq<Call>, v: World, id: nat, at: nat, period: nat, own: bool)
    requires Sound(p) && id in p.handles && id in p.q.tasks && Spares(calls, id)
    requires exists u: World :: DoesAll(p, calls, u) && Goes(u, false, v)
    requires if own then p.running == Some(Running(Expiration(at, id), period))
      else Repeats(p, id, at, period) && (p.running.Some? ==> p.running.value.e.id != id)
    ensures Sound(v) && v.running.None? && Repeats(v, id, if own then at + period else at, period)
  {
    hide Sound, DoesAll, Consistent, Next;
    var u: World :| DoesAll(p, calls, u) && Goes(u, false, v);
    DoesAllFrame(p, calls, u, id);
    if own {
      RequeuedAt(u, v, id, at, period);
    } else {
      GoesFrame(u, false, v, id);
      assert Repeats(v, id, at, period) by { GoesHeld(u, v, id); }
    }
  }

  lemma GoesHeld(u: World, v: World, id: nat)
    requires Goes(u, false, v) && id in u.handles
    ensures id in v.handles
  {
  }

  // A turn that runs it does so at its time, and leaves it waiting for one period later.
  lemma TurnPeriodic(w: World, cb: Callback, t: Turned, v: World, id: nat, at: nat, period: nat)
    requires Sound(w) && w.running.None? && IsTurn(w, cb, t, v) && Spares(cb.calls, id) && !(t.ran && cb.exit)
    requires Repeats(w, id, at, period)
    ensures Sound(v) && v.running.None?
    ensures if t.e.id == id then t == Turned(Expiration(at, id), true) && Repeats(v, id, at + period, period)
      else Repeats(v, id, at, period)
  {
    assert id in w.handles;
    hide Sound, DoesAll, Consistent, Goes, Repeats, Spares, AfterPop;
    var i: nat, p: World :| i < |w.q.heap| && w.q.heap[i] == t.e && Next(w, Pops(i)) == Some(p)
      && if !t.ran then v == p else exists u: World :: DoesAll(p, cb.calls, u) && Goes(u, cb.exit, v);
    PopPeriodic(w, i, p, id, at, period);
    if t.ran {
      RestPeriodic(p, cb.calls, v, id, at, period, t.e.id == id);
    } else {
      NotHeld(w, i, p);
    }
  }

  lemma NotHeld(w: World, i: nat, p: World)
    requires Sound(w) && i < |w.q.heap| && Next(w, Pops(i)) == Some(p) && w.q.heap[i].id !in w.handles
    ensures p.running.None?
  {
  }

  // The k-th time.
  function Nth(at: nat, period: nat, k: nat): (r: nat) {
    at + k * period
  }

  lemma NthNext(at: nat, period: nat, k: nat)
    ensures Nth(at, period, 0) == at && Nth(at, period, k + 1) == Nth(at, period, k) + period
  {
  }

  // Over a whole poll with any clock and any callbacks that do not drop it, a periodic timer is run at `at`, one period
  // later, and so on, and then waits for the next time in the heap.
  lemma {:induction false} PeriodicInPoll(ws: seq<World>, log: seq<Turned>, env: nat -> Callback, id: nat, at: nat,
    period: nat)
    requires Trace(ws, log, env) && Sound(ws[0]) && ws[0].running.None? && Repeats(ws[0], id, at, period)
    requires forall k: nat :: k < |log| ==> Spares(env(k).calls, id) && !(log[k].ran && env(k).exit)
    ensures var w := ws[|log|];
      Sound(w) && w.running.None? && Repeats(w, id, Nth(at, period, RunsOf(log, id)), period)
    ensures forall k: nat :: k < |log| && log[k].e.id == id ==>
      log[k] == Turned(Expiration(Nth(at, period, RunsOf(log[..k], id)), id), true)
    decreases |log|
  {
    hide Sound, IsTurn, Repeats, Spares, Nth;
    NthNext(at, period, 0);
    if log != [] {
      var n := |log| - 1;
      var rest := log[..n];
      PeriodicInPoll(ws[..n + 1], rest, env, id, at, period);
      assert ws[..n + 1][n] == ws[n];
      var c := RunsOf(rest, id);
      TurnPeriodic(ws[n], env(n), log[n], ws[n + 1], id, Nth(at, period, c), period);
      NthNext(at, period, c);
      forall k: nat | k < |log| && log[k].e.id == id
        ensures log[k] == Turned(Expiration(Nth(at, period, RunsOf(log[..k], id)), id), true)
      {
        if k < n { assert rest[k] == log[k] && rest[..k] == log[..k]; }
      }
    }
  }

  lemma NotBoth(w: World, id: nat, at: nat)
    requires HasRun(w, id)
    ensures !Waits(w, id, at)
  {
  }

  lemma StillThere(w: World, id: nat, at: nat)
    requires Sound(w) && Waits(w, id, at)
    ensures exists i :: 0 <= i < |w.q.heap| && w.q.heap[i].at == at
  {
    var i :| 0 <= i < |w.q.heap| && w.q.heap[i].id == id;
    AtOfIs(w.q.heap, i);
  }

  // Why `poll` returns: nothing is waiting; the first entry is not due for a while; the loop is to be left; or so many
  // turns have been made as are looked at.
  datatype Ended = Empty | Wait(dur: nat) | Left | Out

  // `handles` and `running` are not fields of the source's queue: they say what the program around it holds on to.
  class Queue {
    const tasks: Slab<Task>
    var heap: seq<Expiration>
    var handles: set<nat>
    var running: Option<Running>

    ghost function Abs(): (q: Timers)
      reads this, tasks
    {
      Timers(tasks.Map(), heap)
    }

    ghost function Whole(): (w: World)
      reads this, tasks
    {
      World(Abs(), handles, running)
    }

    ghost predicate Valid()
      reads this, tasks
    {
      tasks.Valid() && Sound(Whole())
    }

    predicate Room()
      reads tasks
    {
      tasks.hfree == INVALID_INDEX ==> |tasks.objs| < INVALID_INDEX
    }

    constructor ()
      ensures Valid() && fresh(tasks) && Whole() == World(Timers(map[], []), {}, None)
    {
      tasks := new Slab();
      heap, handles, running := [], {}, None;
    }

    method Add(at: nat, task: nat) returns (id: nat)
      requires Valid() && Room()
      modifies this, tasks
      ensures Valid() && Next(old(Whole()), Adds(id, at, Task(task, Oneshot))) == Some(Whole())
      ensures id !in old(Abs()).tasks && Abs().tasks == old(Abs()).tasks[id := Task(task, Oneshot)]
      ensures handles == old(handles) + {id} && running == old(running)
      ensures forall now: nat, j: nat ::
        DueOf(Abs(), j, now) == if j == id then (if at <= now then [at] else []) else DueOf(old(Abs()), j, now)
    {
      ghost var q := Abs();
      id := Insert(at, Task(task, Oneshot));
      forall now: nat, j: nat
        ensures DueOf(Abs(), j, now) == if j == id then (if at <= now then [at] else []) else DueOf(q, j, now)
      {
        AddedDue(q, id, at, Task(task, Oneshot), j, now);
      }
    }

    method AddPeriodic(at: nat, period: nat, task: nat) returns (id: nat)
      requires Valid() && Room()
      modifies this, tasks
      ensures Valid() && Next(old(Whole()), Adds(id, at, Task(task, Periodic(period)))) == Some(Whole())
      ensures id !in old(Abs()).tasks && Abs().tasks == old(Abs()).tasks[id := Task(task, Periodic(period))]
      ensures handles == old(handles) + {id} && running == old(running)
      ensures forall now: nat :: period > 0 ==> Regular(DueOf(Abs(), id, now), at, period, now)
      ensures forall now: nat, j: nat :: j != id ==> DueOf(Abs(), j, now) == DueOf(old(Abs()), j, now)
    {
      ghost var q := Abs();
      id := Insert(at, Task(task, Periodic(period)));
      forall now: nat, j: nat
        ensures period > 0 ==> Regular(DueOf(Abs(), id, now), at, period, now)
        ensures j != id ==> DueOf(Abs(), j, now) == DueOf(q, j, now)
      {
        AddedDue(q, id, at, Task(task, Periodic(period)), j, now);
      }
    }

    method Insert(at: nat, task: Task) returns (id: nat)
      requires Valid() && Room() && !task.state.Expired? && !task.state.Cancelled?
      modifies this, tasks
      ensures Valid() && Next(old(Whole()), Adds(id, at, task)) == Some(Whole())
    {
      hide Sound;
      NextSound(Whole(), Adds(tasks.NextIndex(), at, task));
      id := tasks.Insert(task);
      heap := heap + [Expiration(at, id)];
      handles := handles + {id};
    }

    // Called when a timer that is held is dropped.
    method Cancel(id: nat) returns (r: bool)
      requires Valid() && id in handles && (running.Some? ==> running.value.e.id != id)
      modifies this, tasks
      ensures Valid() && Next(old(Whole()), Drops(id)) == Some(Whole())
      ensures id in old(Abs().tasks) && (r <==> !old(Abs().tasks[id].state.Expired?))
      ensures handles == old(handles) - {id} && running == old(running)
      ensures forall now: nat, j: nat :: DueOf(Abs(), j, now) == if j == id then [] else DueOf(old(Abs()), j, now)
    {
      ghost var q := Abs();
      r := Mark(id);
      forall now: nat, j: nat ensures DueOf(Abs(), j, now) == if j == id then [] else DueOf(q, j, now) {
        CancelledDue(q, id, j, now);
      }
    }

    // What becomes of the slot.
    method Mark(id: nat) returns (r: bool)
      requires Valid() && id in handles && (running.Some? ==> running.value.e.id != id)
      modifies this, tasks
      ensures Valid() && Next(old(Whole()), Drops(id)) == Some(Whole())
      ensures id in old(Abs().tasks) && (r <==> !old(Abs().tasks[id].state.Expired?))
    {
      assert id in Abs().tasks && !Abs().tasks[id].state.Cancelled?;
      NextSound(Whole(), Drops(id));
      hide Sound;
      var task := tasks.objs[id].elem;
      handles := handles - {id};
      match task.state {
        case Oneshot => tasks.Set(id, task.(state := Cancelled)); return true;
        case Periodic(_) => tasks.Set(id, task.(state := Cancelled)); return true;
        case Cancelled => return true;
        case Expired => tasks.Set(id, task.(state := Cancelled));
      }
      var removed := tasks.Remove(id);
      assert tasks.Map() == old(tasks.Map()) - {id};
      r := false;
    }

    method IsExpired(id: nat) returns (r: bool)
      requires Valid() && id in handles
      ensures r <==> !HasEntry(heap, id)
    {
      ConsistentIff(Abs());
      r := tasks.objs[id].elem.state.Expired?;
    }

    // The heap gives an entry that no other precedes.
    method Peek() returns (i: nat)
      requires heap != []
      ensures i < |heap| && forall j :: 0 <= j < |heap| ==> heap[i].at <= heap[j].at
    {
      i := 0;
      for k := 1 to |heap|
        invariant i < k && forall j :: 0 <= j < k ==> heap[i].at <= heap[j].at
      {
        if heap[k].at < heap[i].at { i := k; }
      }
    }

    // Takes the i-th entry out of the heap. If its task has not been cancelled, it expires and is to be run.
    method Pop(i: nat) returns (e: Expiration, task: Option<Task>)
      requires Valid() && i < |heap| && running.None?
      modifies this, tasks
      ensures e == old(heap[i]) && e.id in old(Abs().tasks)
      ensures Valid() && Next(old(Whole()), Pops(i)) == Some(Whole())
      ensures task == if e.id in old(handles) then Some(old(Abs().tasks[heap[i].id])) else None
      ensures handles == old(handles) && Abs() == AfterPop(old(Abs()), i)
      ensures running == if task.Some? && task.value.state.Periodic? then Some(Running(e, task.value.state.period))
        else None
    {
      PopConsistent(Abs(), i);
      NextSound(Whole(), Pops(i));
      assert heap[i].id in handles <==> !Abs().tasks[heap[i].id].state.Cancelled?;
      hide Sound, Held;
      e := heap[i];
      heap := Without(heap, i);
      var t := tasks.objs[e.id].elem;
      task := None;
      if t.state.Cancelled? {
        var removed := tasks.Remove(e.id);
      } else {
        tasks.Set(e.id, t.(state := Expired));
        if t.state.Periodic? { running := Some(Running(e, t.state.period)); }
        task := Some(t);
      }
    }

    // After the callback of a periodic task: the next expiration counts from the last one, not from the clock.
    method Again()
      requires Valid() && running.Some?
      modifies this, tasks
      ensures Valid() && Next(old(Whole()), Requeues) == Some(Whole()) && running.None? && handles == old(handles)
      ensures old(running.value.e.id in Abs().tasks)
      ensures Abs() == AfterRun(old(Abs()), old(running.value.e), old(running.value.period))
    {
      var e, period := running.value.e, running.value.period;
      assert e.id in Abs().tasks;
      NextSound(Whole(), Requeues);
      ghost var w := Next(Whole(), Requeues).value;
      assert w == World(AfterRun(Abs(), e, period), handles, None);
      hide Sound, Held, Consistent, Next;
      tasks.Set(e.id, tasks.objs[e.id].elem.(state := Periodic(period)));
      heap := heap + [Expiration(e.at + period, e.id)];
      running := None;
      assert Whole() == w;
    }

    // One turn of the loop, with a callback that does nothing.
    method Turn(i: nat) returns (e: Expiration, ran: bool)
      requires Valid() && running.None? && PositivePeriods(Abs()) && i < |heap|
      modifies this, tasks
      ensures e == old(heap[i]) && e.id in old(Abs().tasks) && (ran <==> !old(Abs().tasks[heap[i].id].state.Cancelled?))
      ensures Valid() && PositivePeriods(Abs()) && Abs() == AfterTurn(old(Abs()), i)
      ensures handles == old(handles) && running.None?
    {
      TurnConsistent(Abs(), i);
      assert heap[i].id in handles <==> !Abs().tasks[heap[i].id].state.Cancelled?;
      hide Sound, Held, Consistent, PositivePeriods, Without, Next, AfterPop, AfterRun;
      var task;
      e, task := Pop(i);
      ran := task.Some?;
      if task.Some? && task.value.state.Periodic? { Again(); }
    }

    method Start(at: nat, task: Task)
      requires Valid() && !task.state.Expired? && !task.state.Cancelled?
      modifies this, tasks
      ensures Valid() && Started(old(Whole()), at, task, Whole())
    {
      if Room() {
        var id := Insert(at, task);
        assert Next(old(Whole()), Adds(id, at, task)) == Some(Whole());
      } else {
        NoRoom();
      }
    }

    lemma NoRoom()
      requires Valid() && !Room()
      ensures Full(Abs())
    {
      ChainEmpty(tasks.objs, tasks.hfree, tasks.chain);
    }

    method DoCall(c: Call)
      requires Valid()
      modifies this, tasks
      ensures Valid() && running == old(running) && Does(old(Whole()), c, Whole())
    {
      hide Sound, Held;
      match c {
        case NewTimer(at, task) => Start(at, Task(task, Oneshot));
        case NewPeriodic(at, period, task) => Start(at, Task(task, Periodic(period)));
        case DropTimer(id) =>
          if id in handles && (running.None? || running.value.e.id != id) { var _ := Mark(id); }
      }
    }

    // A task starts and drops timers.
    method RunCalls(calls: seq<Call>)
      requires Valid()
      modifies this, tasks
      ensures Valid() && running == old(running) && DoesAll(old(Whole()), calls, Whole())
    {
      hide Sound, Held, Does, DoesAll;
      ghost var w := Whole();
      NothingDone(w);
      assert calls[..0] == [];
      for k := 0 to |calls|
        invariant Valid() && running == old(running) && DoesAll(w, calls[..k], Whole())
      {
        ghost var m := Whole();
        DoCall(calls[k]);
        DoesMore(w, calls[..k], m, calls[k], Whole());
        assert calls[..k] + [calls[k]] == calls[..k + 1];
      }
      assert calls[..|calls|] == calls;
    }

    lemma NothingDone(w: World)
      ensures DoesAll(w, [], w)
    {
    }

    // One turn of the loop, with any callback.
    method TurnWith(i: nat, callback: Callback) returns (t: Turned)
      requires Valid() && running.None? && i < |heap| && heap[i].at <= callback.now
      requires forall j :: 0 <= j < |heap| ==> heap[i].at <= heap[j].at
      modifies this, tasks
      ensures Valid() && running.None?
      ensures IsTurn(old(Whole()), callback, t, Whole())
    {
      hide Sound, Held, Next, Consistent, DoesAll;
      var e, task := Pop(i);
      t := Turned(e, task.Some?);
      ghost var p := Whole();
      if t.ran {
        RunCalls(callback.calls);
        ghost var u := Whole();
        if callback.exit {
          Leave();
        } else if running.Some? {
          Again();
        }
        assert Goes(u, callback.exit, Whole());
      }
      assert Next(old(Whole()), Pops(i)) == Some(p) && old(heap[i]) == t.e;
    }

    // `poll` with any clock and any callbacks, for at most so many turns: a callback may start timers that are due at
    // once for ever. Every access to a slot finds it in use. `ws` is how things were before each turn, and in the end.
    method PollWith(env: nat -> Callback, turns: nat) returns (log: seq<Turned>, r: Ended, ghost ws: seq<World>)
      requires Valid() && running.None?
      modifies this, tasks
      ensures Valid() && running.None?
      ensures |log| <= turns && Trace(ws, log, env) && ws[0] == old(Whole()) && ws[|log|] == Whole()
      ensures forall k: nat :: k + 1 < |log| ==> !(log[k].ran && env(k).exit)
      ensures r == Left <==> |log| > 0 && log[|log| - 1].ran && env(|log| - 1).exit
      ensures r == Empty ==> heap == []
      ensures r.Wait? ==> r.dur > 0 && (exists i :: 0 <= i < |heap| && heap[i].at == env(|log|).now + r.dur)
      ensures r.Wait? ==> forall i :: 0 <= i < |heap| ==> heap[i].at >= env(|log|).now + r.dur
      ensures r == Out ==> |log| == turns
    {
      hide Sound, Held, IsTurn, Consistent, Trace;
      log, ws := [], [Whole()];
      TraceStarts(Whole(), env);
      for n := 0 to turns
        invariant Valid() && running.None?
        invariant |log| == n && |ws| == n + 1 && Trace(ws, log, env) && ws[0] == old(Whole()) && ws[n] == Whole()
        invariant forall k: nat :: k < n ==> !(log[k].ran && env(k).exit)
      {
        if heap == [] { return log, Empty, ws; }
        var i := Peek();
        if heap[i].at > env(n).now { return log, Wait(heap[i].at - env(n).now), ws; }
        var t := TurnWith(i, env(n));
        TraceGoesOn(ws, log, env, t, Whole());
        log, ws := log + [t], ws + [Whole()];
        if t.ran && env(n).exit { return log, Left, ws; }
      }
      r := Out;
    }

    // The task that ran was the main one: the loop is left at once. A periodic task stays expired for good.
    method Leave()
      requires Valid()
      modifies this
      ensures Valid() && Next(old(Whole()), Exits) == Some(Whole()) && Whole() == old(Whole()).(running := None)
    {
      NextSound(Whole(), Exits);
      running := None;
    }

    // `poll` at a fixed time, with callbacks that do nothing and positive periods. It comes to an end. Every timer is
    // run exactly at the times it is due at, all in the order of these times; then nothing is due, and the result says
    // how long that is so: r is None for an empty heap.
    method Poll(now: nat) returns (r: Option<nat>, log: seq<Expiration>)
      requires Valid() && running.None? && PositivePeriods(Abs())
      modifies this, tasks
      ensures Valid() && running.None? && PositivePeriods(Abs()) && handles == old(handles)
      ensures forall id: nat :: TimesOf(log, id) == DueOf(old(Abs()), id, now)
      ensures Ordered(log) && forall k :: 0 <= k < |log| ==> log[k].at <= now
      ensures r.None? <==> heap == []
      ensures r.Some? ==> r.value > 0 && (exists i :: 0 <= i < |heap| && heap[i].at == now + r.value)
      ensures r.Some? ==> forall i :: 0 <= i < |heap| ==> heap[i].at >= now + r.value
    {
      log := [];
      ghost var q := Abs();
      Begins(q, now);
      while heap != []
        invariant Valid() && running.None? && PositivePeriods(Abs()) && handles == old(handles)
        invariant Underway(q, Abs(), log, now)
        decreases Work(heap, Abs().tasks, now)
      {
        var i := Peek();
        if heap[i].at > now {
          AllRun(q, Abs(), log, now);
          return Some(heap[i].at - now), log;
        }
        TurnConsistent(Abs(), i);
        TurnWork(Abs(), i, now);
        GoesOn(q, Abs(), log, now, i);
        var e, ran := Turn(i);
        if ran { log := log + [e]; }
      }
      AllRun(q, Abs(), log, now);
      r := None;
    }
  }

  // What has been run and what is still due is what was due; nothing that was run comes after what is waiting.
  ghost predicate Underway(q: Timers, p: Timers, log: seq<Expiration>, now: nat) {
    && (forall id: nat :: TimesOf(log, id) + DueOf(p, id, now) == DueOf(q, id, now))
    && Ordered(log)
    && (forall k, i :: 0 <= k < |log| && 0 <= i < |p.heap| ==> log[k].at <= p.heap[i].at)
    && (forall k :: 0 <= k < |log| ==> log[k].at <= now)
  }

  lemma Begins(q: Timers, now: nat)
    ensures Underway(q, q, [], now)
  {
    forall id: nat ensures TimesOf([], id) + DueOf(q, id, now) == DueOf(q, id, now) { assert TimesOf([], id) == []; }
  }

  lemma GoesOn(q: Timers, p: Timers, log: seq<Expiration>, now: nat, i: nat)
    requires Consistent(p) && PositivePeriods(p) && Underway(q, p, log, now) && i < |p.heap| && p.heap[i].id in p.tasks
    requires p.heap[i].at <= now && forall j :: 0 <= j < |p.heap| ==> p.heap[i].at <= p.heap[j].at
    ensures Underway(q, AfterTurn(p, i), if p.tasks[p.heap[i].id].state.Cancelled? then log else log + [p.heap[i]], now)
  {
    var e, ran, p' := p.heap[i], !p.tasks[p.heap[i].id].state.Cancelled?, AfterTurn(p, i);
    forall id: nat ensures TimesOf(if ran then log + [e] else log, id) + DueOf(p', id, now) == DueOf(q, id, now) {
      TurnDue(p, i, id, now);
      TimesOfMore(log, e, id);
      Assoc(TimesOf(log, id), if e.id == id && ran then [e.at] else [], DueOf(p', id, now));
    }
    forall j | 0 <= j < |p'.heap| ensures p'.heap[j].at >= e.at { }
  }

  lemma Assoc(a: seq<nat>, b: seq<nat>, c: seq<nat>)
    ensures a + (b + c) == (a + b) + c && a + [] == a
  {
  }

  lemma AllRun(q: Timers, p: Timers, log: seq<Expiration>, now: nat)
    requires Underway(q, p, log, now) && forall i :: 0 <= i < |p.heap| ==> p.heap[i].at > now
    ensures forall id: nat :: TimesOf(log, id) == DueOf(q, id, now)
  {
    forall id: nat ensures TimesOf(log, id) == DueOf(q, id, now) {
      assert DueOf(p, id, now) == [];
      assert TimesOf(log, id) + [] == TimesOf(log, id);
    }
  }

  // For a single timer: a one-shot one that is due is run once; a periodic one due at `at` is run
  // floor((now - at) / period) + 1 times, at the nominal times at, at + period, and so on.
  lemma DueTimes(q: Timers, i: nat, now: nat)
    requires Consistent(q) && i < |q.heap| && q.heap[i].at <= now && q.heap[i].id in q.tasks
    ensures var e, s, due := q.heap[i], q.tasks[q.heap[i].id].state, DueOf(q, q.heap[i].id, now);
      && (s.Oneshot? ==> due == [e.at])
      && (s.Cancelled? ==> due == [])
      && (s.Periodic? && s.period > 0 ==>
            |due| == (now - e.at) / s.period + 1 && forall k :: 0 <= k < |due| ==> due[k] == e.at + k * s.period)
  {
    AtOfIs(q.heap, i);
    var e, s := q.heap[i], q.tasks[q.heap[i].id].state;
    if s.Periodic? && s.period > 0 { TimesAre(e.at, s.period, now); }
  }
}
