// `TaskRunner` in src/reactor/eloop.rs: when the event loop is left.
module Gates {
  // What a task does while it is run: it takes a gate, if it is given one, or drops one that it was given, or has
  // another task run, as the task that drives the timing wheel and `spawn` do.
  datatype Op = Enter | Leave | Nested(turn: Turn)

  // A run of the main task, which may end with it, or of another one.
  datatype Turn = MainTurn(ops: seq<Op>, ends: bool) | TaskTurn(ops: seq<Op>)

  // Whether there still is a main task, how many gates are open, and how many have been handed out and dropped.
  datatype Runner = Runner(main: bool, gate: nat, handedOut: nat, dropped: nat)

  // Only who was given a gate drops it. The main task is not run again once it has ended, nor within its own run.
  ghost predicate Legal(r: Runner, ops: seq<Op>, inMain: bool)
    decreases ops
  {
    ops == [] || (LegalOp(r, ops[0], inMain) && Legal(AfterOp(r, ops[0]), ops[1..], inMain))
  }

  ghost predicate LegalOp(r: Runner, op: Op, inMain: bool)
    decreases op
  {
    match op
    case Enter => true
    case Leave => r.gate > 0
    case Nested(turn) => LegalTurn(r, turn, inMain)
  }

  ghost predicate LegalTurn(r: Runner, turn: Turn, inMain: bool)
    decreases turn
  {
    (turn.MainTurn? ==> r.main && !inMain) && Legal(r, turn.ops, inMain || turn.MainTurn?)
  }

  function AfterOp(r: Runner, op: Op): (t: Runner)
    decreases op
  {
    match op
    case Enter => if r.main then r.(gate := r.gate + 1, handedOut := r.handedOut + 1) else r
    case Leave => if r.gate > 0 then r.(gate := r.gate - 1, dropped := r.dropped + 1) else r
    case Nested(turn) => AfterTurn(r, turn)
  }

  function AfterOps(r: Runner, ops: seq<Op>): (t: Runner)
    decreases ops
  {
    if ops == [] then r else AfterOps(AfterOp(r, ops[0]), ops[1..])
  }

  function AfterTurn(r: Runner, turn: Turn): (t: Runner)
    decreases turn
  {
    var t := AfterOps(r, turn.ops);
    if turn.MainTurn? && turn.ends then t.(main := false) else t
  }

  function AfterTurns(r: Runner, turns: seq<Turn>): (t: Runner)
    decreases |turns|
  {
    if turns == [] then r else AfterTurns(AfterTurn(r, turns[0]), turns[1..])
  }

  ghost predicate LegalTurns(r: Runner, turns: seq<Turn>)
    decreases |turns|
  {
    turns == [] || (LegalTurn(r, turns[0], false) && LegalTurns(AfterTurn(r, turns[0]), turns[1..]))
  }

  predicate Over(r: Runner) {
    !r.main && r.gate == 0
  }

  // ---- what happened, in order ----

  // A gate is asked for, a gate is dropped, the main task ends.
  datatype Event = Asks | Drops | Ends

  function OpsStory(ops: seq<Op>): (s: seq<Event>)
    decreases ops
  {
    if ops == [] then [] else OpStory(ops[0]) + OpsStory(ops[1..])
  }

  function OpStory(op: Op): (s: seq<Event>)
    decreases op
  {
    match op
    case Enter => [Asks]
    case Leave => [Drops]
    case Nested(turn) => TurnStory(turn)
  }

  function TurnStory(turn: Turn): (s: seq<Event>)
    decreases turn
  {
    OpsStory(turn.ops) + if turn.MainTurn? && turn.ends then [Ends] else []
  }

  function Story(turns: seq<Turn>): (s: seq<Event>)
    decreases |turns|
  {
    if turns == [] then [] else TurnStory(turns[0]) + Story(turns[1..])
  }

  // A gate is given to who asks for it before the main task ends.
  function Given(s: seq<Event>): (n: nat) {
    if s == [] || s[0] == Ends then 0 else (if s[0] == Asks then 1 else 0) + Given(s[1..])
  }

  function Dropped(s: seq<Event>): (n: nat) {
    if s == [] then 0 else (if s[0] == Drops then 1 else 0) + Dropped(s[1..])
  }

  // The main task has ended, and all gates given have been dropped.
  predicate AllDone(s: seq<Event>) {
    Ends in s && Given(s) == Dropped(s)
  }

  lemma {:induction false} GivenConcat(p: seq<Event>, q: seq<Event>)
    ensures Given(p + q) == Given(p) + if Ends in p then 0 else Given(q)
    ensures Dropped(p + q) == Dropped(p) + Dropped(q)
  {
    if p == [] {
      assert p + q == q;
    } else {
      assert (p + q)[0] == p[0] && (p + q)[1..] == p[1..] + q;
      GivenConcat(p[1..], q);
    }
  }

  // The runner is what the story makes of it.
  predicate Tells(r: Runner, s: seq<Event>, t: Runner) {
    && (t.main <==> r.main && Ends !in s)
    && t.handedOut == r.handedOut + (if r.main then Given(s) else 0)
    && t.dropped == r.dropped + Dropped(s)
  }

  lemma TellsConcat(r: Runner, p: seq<Event>, s: Runner, q: seq<Event>, t: Runner)
    requires Tells(r, p, s) && Tells(s, q, t)
    ensures Tells(r, p + q, t)
  {
    GivenConcat(p, q);
  }

  lemma {:induction false} OpsTell(r: Runner, ops: seq<Op>, inMain: bool)
    requires Legal(r, ops, inMain)
    ensures Tells(r, OpsStory(ops), AfterOps(r, ops))
    decreases ops
  {
    if ops != [] {
      OpTells(r, ops[0], inMain);
      OpsTell(AfterOp(r, ops[0]), ops[1..], inMain);
      TellsConcat(r, OpStory(ops[0]), AfterOp(r, ops[0]), OpsStory(ops[1..]), AfterOps(r, ops));
    }
  }

  lemma {:induction false} OpTells(r: Runner, op: Op, inMain: bool)
    requires LegalOp(r, op, inMain)
    ensures Tells(r, OpStory(op), AfterOp(r, op))
    decreases op
  {
    if op.Nested? {
      TurnTells(r, op.turn, inMain);
    } else {
      assert forall e: Event :: [e][1..] == [];
    }
  }

  lemma {:induction false} TurnTells(r: Runner, turn: Turn, inMain: bool)
    requires LegalTurn(r, turn, inMain)
    ensures Tells(r, TurnStory(turn), AfterTurn(r, turn))
    decreases turn
  {
    var t, e: seq<Event> := AfterOps(r, turn.ops), if turn.MainTurn? && turn.ends then [Ends] else [];
    OpsTell(r, turn.ops, inMain || turn.MainTurn?);
    assert e != [] ==> e[1..] == [];
    assert Dropped(e) == 0 && Given(e) == 0;
    TellsConcat(r, OpsStory(turn.ops), t, e, AfterTurn(r, turn));
  }

  lemma {:induction false} TurnsTell(r: Runner, turns: seq<Turn>)
    requires LegalTurns(r, turns)
    ensures Tells(r, Story(turns), AfterTurns(r, turns))
    decreases |turns|
  {
    hide Tells;
    if turns == [] {
      NothingTold(r);
    } else {
      TurnTells(r, turns[0], false);
      TurnsTell(AfterTurn(r, turns[0]), turns[1..]);
      TellsConcat(r, TurnStory(turns[0]), AfterTurn(r, turns[0]), Story(turns[1..]), AfterTurns(r, turns));
    }
  }

  lemma NothingTold(r: Runner)
    ensures Tells(r, [], r)
  {
  }

  // From the start on, the main task is there as long as no run of it has ended, at the top or within other runs, and
  // the open gates are those given before that, less those dropped.
  lemma StoryTold(r: Runner, turns: seq<Turn>)
    requires r == Runner(true, 0, 0, 0) && LegalTurns(r, turns)
    ensures var t := AfterTurns(r, turns);
      && (t.main <==> Ends !in Story(turns))
      && t.gate == Given(Story(turns)) - Dropped(Story(turns))
      && (Over(t) <==> AllDone(Story(turns)))
  {
    hide Given, Dropped, Story;
    TurnsTell(r, turns);
    TurnsCount(r, turns);
  }

  // ---- what no run breaks ----

  predicate Counts(r: Runner, t: Runner) {
    && t.handedOut == t.dropped + t.gate
    && (!r.main ==> !t.main && t.gate <= r.gate && t.handedOut == r.handedOut)
  }

  lemma {:induction false} OpsCount(r: Runner, ops: seq<Op>)
    requires r.handedOut == r.dropped + r.gate
    ensures Counts(r, AfterOps(r, ops))
    decreases ops
  {
    if ops != [] {
      OpCount(r, ops[0]);
      OpsCount(AfterOp(r, ops[0]), ops[1..]);
    }
  }

  lemma {:induction false} OpCount(r: Runner, op: Op)
    requires r.handedOut == r.dropped + r.gate
    ensures Counts(r, AfterOp(r, op))
    decreases op
  {
    if op.Nested? { TurnCount(r, op.turn); }
  }

  lemma {:induction false} TurnCount(r: Runner, turn: Turn)
    requires r.handedOut == r.dropped + r.gate
    ensures Counts(r, AfterTurn(r, turn))
    decreases turn
  {
    OpsCount(r, turn.ops);
  }

  // Once the main task is done, no gate is handed out and their number never rises; and the open gates are always
  // those handed out and not dropped.
  lemma {:induction false} TurnsCount(r: Runner, turns: seq<Turn>)
    requires r.handedOut == r.dropped + r.gate
    ensures Counts(r, AfterTurns(r, turns))
    decreases |turns|
  {
    if turns != [] {
      TurnCount(r, turns[0]);
      TurnsCount(AfterTurn(r, turns[0]), turns[1..]);
    }
  }

  lemma {:induction false} TurnsSplit(r: Runner, turns: seq<Turn>, k: nat)
    requires k < |turns|
    ensures AfterTurns(r, turns[..k + 1]) == AfterTurn(AfterTurns(r, turns[..k]), turns[k])
    ensures LegalTurns(r, turns) ==> LegalTurn(AfterTurns(r, turns[..k]), turns[k], false)
    decreases k
  {
    if k == 0 {
      assert turns[..1] == [turns[0]] && turns[..0] == [];
    } else {
      TurnsSplit(AfterTurn(r, turns[0]), turns[1..], k - 1);
      assert turns[..k + 1][1..] == turns[1..][..k] && turns[..k][1..] == turns[1..][..k - 1];
    }
  }

  class TaskRunner {
    var mainTask: bool
    var gate: nat
    ghost var handedOut: nat
    ghost var dropped: nat

    ghost function Abs(): (r: Runner)
      reads this
    {
      Runner(mainTask, gate, handedOut, dropped)
    }

    constructor ()
      ensures Abs() == Runner(true, 0, 0, 0)
    {
      mainTask, gate, handedOut, dropped := true, 0, 0, 0;
    }

    method EnterGate() returns (given: bool)
      modifies this
      ensures Abs() == AfterOp(old(Abs()), Enter) && (given <==> old(mainTask))
    {
      given := mainTask;
      if given { gate, handedOut := gate + 1, handedOut + 1; }
    }

    method LeaveGate()
      requires gate > 0
      modifies this
      ensures Abs() == AfterOp(old(Abs()), Leave)
    {
      gate, dropped := gate - 1, dropped + 1;
    }

    // A task is polled.
    method Poll(ops: seq<Op>, ghost inMain: bool)
      requires Legal(Abs(), ops, inMain)
      modifies this
      ensures Abs() == AfterOps(old(Abs()), ops)
      decreases ops
    {
      for k := 0 to |ops|
        invariant Legal(Abs(), ops[k..], inMain) && AfterOps(Abs(), ops[k..]) == AfterOps(old(Abs()), ops)
      {
        assert ops[k..][0] == ops[k] && ops[k..][1..] == ops[k + 1..];
        Do(ops[k], inMain);
      }
    }

    method Do(op: Op, ghost inMain: bool)
      requires LegalOp(Abs(), op, inMain)
      modifies this
      ensures Abs() == AfterOp(old(Abs()), op)
      decreases op
    {
      match op {
        case Enter => var _ := EnterGate();
        case Leave => LeaveGate();
        case Nested(turn) => var _ := RunTask(turn, inMain);
      }
    }

    // run_main_task and run_task: whether the loop is to be left
    method RunTask(turn: Turn, ghost inMain: bool) returns (over: bool)
      requires LegalTurn(Abs(), turn, inMain)
      modifies this
      ensures Abs() == AfterTurn(old(Abs()), turn) && (over <==> Over(Abs()))
      decreases turn
    {
      if turn.MainTurn? { OpsMain(Abs(), turn.ops); }
      Poll(turn.ops, inMain || turn.MainTurn?);
      if turn.MainTurn? {
        if !turn.ends { return false; }
        mainTask := false;
        return gate == 0;
      }
      over := !mainTask && gate == 0;
    }

    // The loop is left at the first run after which the main task has ended, in that run or before, and every gate that
    // was given has been dropped.
    method Run(turns: seq<Turn>) returns (left: bool, n: nat)
      requires Abs() == Runner(true, 0, 0, 0) && LegalTurns(Abs(), turns)
      modifies this
      ensures n <= |turns| && (mainTask <==> Ends !in Story(turns[..n]))
      ensures gate == Given(Story(turns[..n])) - Dropped(Story(turns[..n]))
      ensures forall k :: 0 < k < n ==> !AllDone(Story(turns[..k]))
      ensures if left then n > 0 && AllDone(Story(turns[..n]))
        else n == |turns| && (n > 0 ==> !AllDone(Story(turns[..n])))
    {
      ghost var r := Abs();
      n := 0;
      assert turns[..0] == [];
      while n < |turns|
        invariant n <= |turns| && Abs() == AfterTurns(r, turns[..n])
        invariant mainTask <==> Ends !in Story(turns[..n])
        invariant gate == Given(Story(turns[..n])) - Dropped(Story(turns[..n]))
        invariant forall k :: 0 < k <= n ==> !AllDone(Story(turns[..k]))
      {
        TurnsSplit(r, turns, n);
        LegalPrefix(r, turns, n + 1);
        StoryTold(r, turns[..n + 1]);
        var over := RunTask(turns[n], false);
        n := n + 1;
        if over { return true, n; }
      }
      left := false;
    }
  }

  lemma {:induction false} LegalPrefix(r: Runner, turns: seq<Turn>, k: nat)
    requires LegalTurns(r, turns) && k <= |turns|
    ensures LegalTurns(r, turns[..k])
    decreases k
  {
    if k > 0 {
      LegalPrefix(AfterTurn(r, turns[0]), turns[1..], k - 1);
      assert turns[..k][1..] == turns[1..][..k - 1];
    }
  }

  // The main task is still there after anything that happens within its run.
  lemma {:induction false} OpsMain(r: Runner, ops: seq<Op>)
    requires Legal(r, ops, true)
    ensures AfterOps(r, ops).main == r.main
    decreases ops
  {
    if ops != [] {
      OpMain(r, ops[0]);
      OpsMain(AfterOp(r, ops[0]), ops[1..]);
    }
  }

  lemma {:induction false} OpMain(r: Runner, op: Op)
    requires LegalOp(r, op, true)
    ensures AfterOp(r, op).main == r.main
    decreases op
  {
    if op.Nested? {
      assert op.turn.TaskTurn?;
      OpsMain(r, op.turn.ops);
    }
  }
}
