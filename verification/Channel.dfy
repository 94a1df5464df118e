// src/sync/spsc.rs, src/sys/unix/spsc.rs and src/sys/unix/awakener.rs: the channel between one sender and one
// receiver, as two processes that take one step per access to shared memory.
module Spsc {
  import opened Bits
  import opened Slabs

  // Where the sender is: in `try_send`/`send`, in `wakeup`, or dropped.
  datatype Sender<T> =
    | Idle
    | Pushing(t: T)      // in try_push, before the test for a full buffer
    | Writing(t: T)      // about to write the slot
    | Publishing(t: T)   // the slot is written, `rear` is not yet stored
    | Waking             // about to load need_wakeup
    | FdWriting          // about to write the event fd
    | Clearing           // about to store need_wakeup = false
    | Gone

  // Where the receiver is: in `poll`, in `reset`, or dropped. `last` marks the reset done by its drop.
  datatype Receiver<T> =
    | Resting
    | Resetting(last: bool)   // about to load need_wakeup
    | FdReading(last: bool)   // about to read the event fd
    | Setting(last: bool)     // about to store need_wakeup = true
    | Popping                 // in try_pop, before the test for an empty buffer
    | Reading                 // about to read the slot
    | Advancing(t: T)         // the slot is read, `front` is not yet stored
    | FoundEmpty              // about to look whether the sender is gone
    | Leaving                 // about to give up the buffer
    | Left

  // The ring buffer: the atomics `front` and `rear`, each side's private copy of the other's index, the slots
  // (Some: the slot holds a value nobody has moved out yet), and the values pushed and popped so far.
  datatype Ring<T> = Ring(
    cap: nat, buf: seq<Option<T>>,
    front: nat, shadowRear: nat, rear: nat, shadowFront: nat,
    pushed: seq<T>, popped: seq<T>)

  // The awakener, the owners of the buffer, and the receiver's `need_reset`. `fd` says that the event fd is
  // readable, `parked` that the last poll returned NotReady, `stale` that in this poll the buffer was found empty
  // with an index that was behind.
  datatype Hand = Hand(
    needWakeup: bool, fd: bool, senderUp: bool, receiverUp: bool, needReset: bool, parked: bool, stale: bool)

  // `misuse` is set when a live slot is overwritten, an empty one is read, or the event fd is found in the wrong state.
  datatype State<T> = State(r: Ring<T>, h: Hand, sender: Sender<T>, receiver: Receiver<T>, misuse: bool)

  datatype SenderStep<T> =
    | Send(t: T) | TryPush(seen: nat) | Write | Publish | LoadNeed | WriteFd | ClearNeed | DropSender

  datatype ReceiverStep =
    | Poll | LoadNeedReset | ReadFd | SetNeed | TryPop(seen: nat) | Read | Advance
    | CheckClosed | DropReceiver | Release

  datatype Step<T> = BySender(sender: SenderStep<T>) | ByReceiver(receiver: ReceiverStep)

  // `index & self.idx_mask`, with idx_mask = n - 1
  function Effective<T>(r: Ring<T>, index: nat): (res: nat)
    requires |r.buf| > 0
  {
    And(index, |r.buf| - 1)
  }

  // sync_channel(capacity)
  function Init<T>(capacity: nat): (r: State<T>) {
    State(Ring(capacity, seq(Pow2(CeilLog2(capacity)), _ => None), 0, 0, 0, 0, [], []),
      Hand(true, false, true, true, true, false, false), Idle, Resting, false)
  }

  function AfterWakeup<T>(h: Hand): (r: Sender<T>) {
    if h.senderUp then Idle else Gone
  }

  function AfterReset<T>(last: bool): (r: Receiver<T>) {
    if last then Leaving else Popping
  }

  // The effect of a step; None when the process is not at that point, or the value is not one it can see.
  function Apply<T>(s: State<T>, step: Step<T>): (res: Option<State<T>>)
    requires |s.r.buf| > 0
  {
    match step
    case BySender(x) => ApplySender(s, x)
    case ByReceiver(x) => ApplyReceiver(s, x)
  }

  function ApplySender<T>(s: State<T>, step: SenderStep<T>): (res: Option<State<T>>)
    requires |s.r.buf| > 0
  {
    var r, h := s.r, s.h;
    match (step, s.sender)
    case (Send(t), Idle) =>
      if !h.receiverUp then Some(s)  // Disconnected
      else Some(s.(sender := Pushing(t)))
    case (TryPush(seen), Pushing(t)) =>
      if r.shadowFront + r.cap > r.rear then Some(s.(sender := Writing(t)))
      else if !(r.shadowFront <= seen <= r.front) then None  // a load sees some value stored since the last one seen
      else if seen + r.cap <= r.rear then Some(s.(r := r.(shadowFront := seen), sender := Idle))  // Full
      else Some(s.(r := r.(shadowFront := seen), sender := Writing(t)))
    case (Write, Writing(t)) =>
      var i := Effective(r, r.rear);
      if i >= |r.buf| then None
      else Some(s.(misuse := s.misuse || r.buf[i].Some?, r := r.(buf := r.buf[i := Some(t)]), sender := Publishing(t)))
    case (Publish, Publishing(t)) =>
      Some(s.(r := r.(rear := r.rear + 1, pushed := r.pushed + [t]), sender := Waking))
    case (LoadNeed, Waking) =>
      Some(s.(sender := if h.needWakeup then FdWriting else AfterWakeup(h)))
    case (WriteFd, FdWriting) =>
      if h.fd then Some(s.(sender := AfterWakeup(h), misuse := true))  // the write would block
      else Some(s.(h := h.(fd := true), sender := Clearing))
    case (ClearNeed, Clearing) =>
      Some(s.(h := h.(needWakeup := false), sender := AfterWakeup(h)))
    case (DropSender, Idle) =>  // the buffer is given up first, then the awakener wakes the receiver
      Some(s.(h := h.(senderUp := false), sender := Waking))
    case _ => None
  }

  function ApplyReceiver<T>(s: State<T>, step: ReceiverStep): (res: Option<State<T>>)
    requires |s.r.buf| > 0
  {
    var r, h := s.r, s.h;
    match (step, s.receiver)
    case (Poll, Resting) =>
      Some(s.(h := h.(parked := false, stale := false), receiver := if h.needReset then Resetting(false) else Popping))
    case (LoadNeedReset, Resetting(last)) =>
      if !h.needWakeup then Some(s.(receiver := FdReading(last)))
      else Some(s.(h := h.(needReset := false), receiver := AfterReset(last)))
    case (ReadFd, FdReading(last)) =>
      if h.fd then Some(s.(h := h.(fd := false), receiver := Setting(last)))
      else if last then Some(s.(misuse := true, receiver := Leaving))  // the read would block
      else Some(s.(misuse := true, h := h.(parked := true), receiver := Resting))
    case (SetNeed, Setting(last)) =>
      Some(s.(h := h.(needWakeup := true, needReset := false), receiver := AfterReset(last)))
    case (TryPop(seen), Popping) =>
      if r.front != r.shadowRear then Some(s.(receiver := Reading))
      else if !(r.shadowRear <= seen <= r.rear) then None
      else if r.front == seen then
        Some(s.(r := r.(shadowRear := seen), h := h.(stale := seen != r.rear), receiver := FoundEmpty))
      else Some(s.(r := r.(shadowRear := seen), receiver := Reading))
    case (Read, Reading) =>
      var i := Effective(r, r.front);
      if i >= |r.buf| then None
      else if r.buf[i].None? then Some(s.(misuse := true, receiver := Resting))
      else Some(s.(r := r.(buf := r.buf[i := None]), receiver := Advancing(r.buf[i].value)))
    case (Advance, Advancing(t)) =>
      Some(s.(r := r.(front := r.front + 1, popped := r.popped + [t]), receiver := Resting))
    case (CheckClosed, FoundEmpty) =>
      Some(s.(h := h.(needReset := true, parked := h.senderUp), receiver := Resting))
    case (DropReceiver, Resting) =>  // its awakener is reset first, then the buffer is given up
      Some(s.(h := h.(parked := false), receiver := Resetting(true)))
    case (Release, Leaving) =>
      Some(s.(h := h.(receiverUp := false), receiver := Left))
    case _ => None
  }

  // ---- the ring ----

  // The live indices: from the first value not yet moved out to the last one written.
  function Low<T>(s: State<T>): (res: nat) { if s.receiver.Advancing? then s.r.front + 1 else s.r.front }

  function High<T>(s: State<T>): (res: nat) { if s.sender.Publishing? then s.r.rear + 1 else s.r.rear }

  // The value written at index i.
  function Item<T>(s: State<T>, i: nat): (res: T)
    requires |s.r.pushed| == s.r.rear && i < High(s)
  {
    if i < s.r.rear then s.r.pushed[i] else s.sender.t
  }

  ghost predicate Shape<T>(s: State<T>) {
    && s.r.cap <= |s.r.buf| && exists k: nat :: |s.r.buf| == Pow2(k)
  }

  ghost predicate Slots<T>(s: State<T>)
    requires |s.r.pushed| == s.r.rear && |s.r.buf| > 0
  {
    && (forall i: nat :: Low(s) <= i < High(s) ==> s.r.buf[i % |s.r.buf|] == Some(Item(s, i)))
    && (forall j: nat :: j < |s.r.buf| && s.r.buf[j].Some? ==>
      exists i: nat :: Low(s) <= i < High(s) && j == i % |s.r.buf|)
  }

  // shadow_front <= front <= shadow_rear <= rear <= shadow_front + cap, and what the two sides hold on to.
  ghost predicate Bounds<T>(s: State<T>) {
    && s.r.shadowFront <= s.r.front <= s.r.shadowRear <= s.r.rear <= s.r.shadowFront + s.r.cap
    && (s.sender.Writing? || s.sender.Publishing? ==> s.r.rear < s.r.shadowFront + s.r.cap)
    && (s.receiver.Reading? || s.receiver.Advancing? ==> s.r.front < s.r.shadowRear)
    && (s.receiver.FoundEmpty? ==> s.r.front == s.r.shadowRear)
    && |s.r.pushed| == s.r.rear
    && s.r.popped == s.r.pushed[..s.r.front]
    && (s.receiver.Advancing? ==> s.receiver.t == s.r.pushed[s.r.front])
  }

  ghost predicate RingInv<T>(s: State<T>) {
    Shape(s) && |s.r.buf| > 0 && Bounds(s) && Slots(s)
  }

  // ---- the handshake ----

  ghost predicate FdInv<T>(s: State<T>) {
    && (s.h.fd <==> (!s.h.needWakeup && !s.receiver.Setting?) || s.sender.Clearing?)
    && (s.sender.FdWriting? || s.sender.Clearing? ==> s.h.needWakeup)
    && (s.receiver.FdReading? || s.receiver.Setting? ==> !s.h.needWakeup)
  }

  ghost predicate OwnInv<T>(s: State<T>) {
    && (!s.sender.Waking? && !s.sender.FdWriting? && !s.sender.Clearing? ==> (s.h.senderUp <==> !s.sender.Gone?))
    && (s.h.receiverUp <==> !s.receiver.Left?)
    && (s.h.parked ==> s.receiver.Resting? && s.h.needReset)
  }

  predicate InWakeup<T>(s: State<T>) {
    s.sender.Waking? || s.sender.FdWriting? || s.sender.Clearing?
  }

  // The receiver went to sleep, or is about to, although there is something for it.
  ghost predicate Missed<T>(s: State<T>) {
    || (s.receiver.FoundEmpty? && s.r.front < s.r.rear)
    || (s.h.parked && (s.r.front < s.r.rear || !s.h.senderUp))
  }

  ghost predicate Inv<T>(s: State<T>) {
    && RingInv(s) && FdInv(s) && OwnInv(s) && !s.misuse
    && (Missed(s) && !s.h.stale ==> s.h.fd || InWakeup(s))
  }

  lemma EffectiveIsMod<T>(s: State<T>, index: nat)
    requires Shape(s) && |s.r.buf| > 0
    ensures Effective(s.r, index) == index % |s.r.buf| < |s.r.buf|
  {
    var k: nat :| |s.r.buf| == Pow2(k);
    MaskIsMod(index, k);
  }

  lemma ModDistinct(i: nat, j: nat, n: nat)
    requires n > 0 && i < j < i + n
    ensures i % n != j % n
  {
    var d := j / n - i / n;
    assert j - i == d * n + (j % n - i % n);
    NoMultipleBelow(d, n);
  }

  lemma NoMultipleBelow(d: int, n: nat)
    ensures !(0 < d * n < n)
  {
  }

  lemma InitInv<T>(capacity: nat)
    ensures Inv(Init<T>(capacity))
  {
    var s := Init<T>(capacity);
    assert |s.r.buf| == Pow2(CeilLog2(capacity));
  }

  lemma WriteStep<T>(s: State<T>, t: State<T>)
    requires RingInv(s) && ApplySender(s, Write) == Some(t)
    ensures RingInv(t) && t.misuse == s.misuse
  {
    EffectiveIsMod(s, s.r.rear);
    var n := |s.r.buf|;
    forall i: nat | Low(s) <= i < High(s) ensures i % n != s.r.rear % n { ModDistinct(i, s.r.rear, n); }
    assert s.r.buf[s.r.rear % n].None?;
    forall j: nat | j < n && t.r.buf[j].Some? ensures exists i: nat :: Low(t) <= i < High(t) && j == i % n {
      if j != s.r.rear % n {
        var i: nat :| Low(s) <= i < High(s) && j == i % n;
      } else {
        assert Low(t) <= s.r.rear < High(t);
      }
    }
  }

  lemma ReadStep<T>(s: State<T>, t: State<T>)
    requires RingInv(s) && ApplyReceiver(s, Read) == Some(t)
    ensures RingInv(t) && t.misuse == s.misuse && t.receiver == Advancing(s.r.pushed[s.r.front])
  {
    EffectiveIsMod(s, s.r.front);
    var n := |s.r.buf|;
    assert s.r.buf[s.r.front % n] == Some(Item(s, s.r.front));
    forall i: nat | s.r.front < i < High(s) ensures i % n != s.r.front % n { ModDistinct(s.r.front, i, n); }
    forall j: nat | j < n && t.r.buf[j].Some? ensures exists i: nat :: Low(t) <= i < High(t) && j == i % n {
      var i: nat :| Low(s) <= i < High(s) && j == i % n;
    }
  }

  lemma FreeToWrite<T>(s: State<T>)
    requires RingInv(s) && s.sender.Writing?
    ensures s.r.buf[s.r.rear % |s.r.buf|].None?
  {
    forall i: nat | Low(s) <= i < High(s) ensures i % |s.r.buf| != s.r.rear % |s.r.buf| {
      ModDistinct(i, s.r.rear, |s.r.buf|);
    }
  }

  // Every other step leaves the live values where they are.
  lemma SlotsFrame<T>(s: State<T>, t: State<T>)
    requires |s.r.pushed| == s.r.rear && |t.r.pushed| == t.r.rear && |s.r.buf| > 0 && Slots(s)
    requires t.r.buf == s.r.buf && Low(t) == Low(s) && High(t) == High(s)
    requires forall i: nat :: Low(s) <= i < High(s) ==> Item(t, i) == Item(s, i)
    ensures Slots(t)
  {
  }

  lemma SenderBounds<T>(s: State<T>, step: SenderStep<T>, t: State<T>)
    requires |s.r.buf| > 0 && Bounds(s) && ApplySender(s, step) == Some(t)
    ensures Bounds(t) && t.r.cap == s.r.cap && |t.r.buf| == |s.r.buf|
    ensures !step.Write? ==> t.r.buf == s.r.buf && Low(t) == Low(s) && High(t) == High(s)
    ensures !step.Write? ==> forall i: nat :: Low(s) <= i < High(s) ==> Item(t, i) == Item(s, i)
  {
  }

  lemma ReceiverBounds<T>(s: State<T>, step: ReceiverStep, t: State<T>)
    requires |s.r.buf| > 0 && Bounds(s) && !step.Read? && ApplyReceiver(s, step) == Some(t)
    ensures Bounds(t) && t.r.cap == s.r.cap
    ensures t.r.buf == s.r.buf && Low(t) == Low(s) && High(t) == High(s)
    ensures forall i: nat :: Low(s) <= i < High(s) ==> Item(t, i) == Item(s, i)
  {
  }

  lemma RingStep<T>(s: State<T>, step: Step<T>, t: State<T>)
    requires RingInv(s) && Apply(s, step) == Some(t)
    ensures RingInv(t)
    ensures step == BySender(Write) || step == ByReceiver(Read) ==> t.misuse == s.misuse
  {
    if step == BySender(Write) {
      WriteStep(s, t);
    } else if step == ByReceiver(Read) {
      ReadStep(s, t);
    } else {
      match step {
        case BySender(x) => SenderBounds(s, x, t);
        case ByReceiver(x) => ReceiverBounds(s, x, t);
      }
      SlotsFrame(s, t);
    }
  }

  // The handshake does not depend on what is in the slots.
  ghost predicate HandInv<T>(s: State<T>) {
    && FdInv(s) && OwnInv(s)
    && (Missed(s) && !s.h.stale ==> s.h.fd || InWakeup(s))
  }

  lemma HandSenderStep<T>(s: State<T>, step: SenderStep<T>, t: State<T>)
    requires |s.r.buf| > 0 && HandInv(s) && ApplySender(s, step) == Some(t)
    ensures HandInv(t)
    ensures !step.Write? ==> t.misuse == s.misuse
  {
  }

  lemma HandReceiverStep<T>(s: State<T>, step: ReceiverStep, t: State<T>)
    requires |s.r.buf| > 0 && HandInv(s) && ApplyReceiver(s, step) == Some(t) && s.r.front <= s.r.shadowRear <= s.r.rear
    ensures !step.Read? ==> HandInv(t) && t.misuse == s.misuse
    ensures step.Read? && t.misuse == s.misuse ==> HandInv(t)
  {
  }

  lemma StepInv<T>(s: State<T>, step: Step<T>, t: State<T>)
    requires Inv(s) && Apply(s, step) == Some(t)
    ensures Inv(t)
  {
    RingStep(s, step, t);
    match step {
      case BySender(x) => HandSenderStep(s, x, t);
      case ByReceiver(x) => HandReceiverStep(s, x, t);
    }
  }

  // ---- runs ----

  // A run: the states before and after each of a number of steps, in any interleaving.
  ghost predicate Behavior<T>(run: seq<State<T>>, steps: seq<Step<T>>, capacity: nat) {
    && |run| == |steps| + 1 && run[0] == Init(capacity)
    && forall i: nat :: i < |steps| ==> Leads(run[i], steps[i], run[i + 1])
  }

  ghost predicate Leads<T>(s: State<T>, step: Step<T>, t: State<T>) {
    |s.r.buf| > 0 && Apply(s, step) == Some(t)
  }

  lemma {:induction false} AlwaysInv<T>(run: seq<State<T>>, steps: seq<Step<T>>, capacity: nat, i: nat)
    requires Behavior(run, steps, capacity) && i < |run|
    ensures Inv(run[i])
  {
    if i == 0 {
      InitInv<T>(capacity);
    } else {
      AlwaysInv(run, steps, capacity, i - 1);
      assert Leads(run[i - 1], steps[i - 1], run[i - 1 + 1]);
      StepInv(run[i - 1], steps[i - 1], run[i]);
    }
  }

  // At every step of every interleaving, even with stale loads: the indices are ordered, every value between
  // them is where it was put, nothing live is overwritten, nothing is read twice or from an empty slot, the event
  // fd is never found in the wrong state, and what has been popped is a prefix of what has been pushed.
  lemma Safety<T>(run: seq<State<T>>, steps: seq<Step<T>>, capacity: nat, i: nat)
    requires Behavior(run, steps, capacity) && i < |run|
    ensures var s := run[i];
      && s.r.shadowFront <= s.r.front <= s.r.shadowRear <= s.r.rear <= s.r.shadowFront + s.r.cap
      && s.r.popped <= s.r.pushed
      && |s.r.popped| == s.r.front && |s.r.pushed| == s.r.rear && |s.r.buf| > 0
      && (forall k: nat :: Low(s) <= k < s.r.rear ==>
            Effective(s.r, k) < |s.r.buf| && s.r.buf[Effective(s.r, k)] == Some(s.r.pushed[k]))
      && !s.misuse
    ensures var s := run[i];
      && (s.sender.FdWriting? ==> !s.h.fd) && (s.receiver.FdReading? ==> s.h.fd)
      && Effective(s.r, s.r.rear) < |s.r.buf| && Effective(s.r, s.r.front) < |s.r.buf|
      && (s.sender.Writing? ==> s.r.buf[Effective(s.r, s.r.rear)].None?)
      && (s.receiver.Reading? ==>
            s.r.front < |s.r.pushed| && s.r.buf[Effective(s.r, s.r.front)] == Some(s.r.pushed[s.r.front]))
    ensures run[i].r.cap == capacity
  {
    AlwaysInv(run, steps, capacity, i);
    Constants(run, steps, capacity, i);
    var s := run[i];
    forall k: nat | Low(s) <= k < s.r.rear
      ensures Effective(s.r, k) < |s.r.buf| && s.r.buf[Effective(s.r, k)] == Some(s.r.pushed[k])
    {
      EffectiveIsMod(s, k);
      assert Item(s, k) == s.r.pushed[k];
    }
    EffectiveIsMod(s, s.r.rear);
    EffectiveIsMod(s, s.r.front);
    if s.sender.Writing? { FreeToWrite(s); }
  }

  lemma {:induction false} Constants<T>(run: seq<State<T>>, steps: seq<Step<T>>, capacity: nat, i: nat)
    requires Behavior(run, steps, capacity) && i < |run|
    ensures run[i].r.cap == capacity
  {
    if i > 0 {
      Constants(run, steps, capacity, i - 1);
      assert Leads(run[i - 1], steps[i - 1], run[i - 1 + 1]);
      match steps[i - 1] {
        case BySender(x) => SenderConstants(run[i - 1], x, run[i]);
        case ByReceiver(x) => ReceiverConstants(run[i - 1], x, run[i]);
      }
    }
  }

  lemma SenderConstants<T>(s: State<T>, step: SenderStep<T>, t: State<T>)
    requires |s.r.buf| > 0 && ApplySender(s, step) == Some(t)
    ensures t.r.cap == s.r.cap
  {
  }

  lemma ReceiverConstants<T>(s: State<T>, step: ReceiverStep, t: State<T>)
    requires |s.r.buf| > 0 && ApplyReceiver(s, step) == Some(t)
    ensures t.r.cap == s.r.cap
  {
  }

  // No wakeup is lost but through a stale load: a receiver that sleeps on a non-empty queue, or on one whose sender is
  // gone, has a readable event fd, or the sender is still on its way through `wakeup`, or the receiver has found the
  // queue empty with an index of the sender that was behind. Loads of the receiver's index by the sender may be stale.
  lemma NoLostWakeup<T>(run: seq<State<T>>, steps: seq<Step<T>>, capacity: nat, i: nat)
    requires Behavior(run, steps, capacity) && i < |run|
    requires run[i].h.parked && (run[i].r.front < run[i].r.rear || !run[i].h.senderUp)
    ensures run[i].h.fd || InWakeup(run[i]) || run[i].h.stale
    ensures run[i].h.needReset && run[i].receiver.Resting?
  {
    AlwaysInv(run, steps, capacity, i);
  }

  // `try_push` refuses a value only when the index it has seen leaves no room. If that index is not behind, it refuses
  // exactly when the buffer is full. `try_pop` finds the buffer empty under the same terms.
  lemma FullIsFull<T>(s: State<T>, seen: nat, t: State<T>)
    requires Inv(s) && ApplySender(s, TryPush(seen)) == Some(t)
    ensures s.sender.Pushing? && (t.sender.Idle? || t.sender == Writing(s.sender.t))
    ensures t.sender.Idle? ==> seen + s.r.cap == s.r.rear
    ensures seen == s.r.front ==> (t.sender.Idle? <==> s.r.rear - s.r.front == s.r.cap)
  {
  }

  lemma EmptyIsEmpty<T>(s: State<T>, seen: nat, t: State<T>)
    requires Inv(s) && ApplyReceiver(s, TryPop(seen)) == Some(t)
    ensures t.receiver.FoundEmpty? ==> seen == s.r.front && (t.h.stale <==> s.r.front < s.r.rear)
    ensures seen == s.r.rear ==> (t.receiver.FoundEmpty? <==> s.r.front == s.r.rear)
  {
  }

  // ---- what calls return ----

  // The sender owns the buffer until it is dropped, and the receiver until it gives it up.
  lemma {:induction false} OwnersAre<T>(run: seq<State<T>>, steps: seq<Step<T>>, capacity: nat, i: nat)
    requires Behavior(run, steps, capacity) && i < |run|
    ensures run[i].h.senderUp <==> BySender(DropSender) !in steps[..i]
    ensures run[i].h.receiverUp <==> ByReceiver(Release) !in steps[..i]
  {
    if i > 0 {
      OwnersAre(run, steps, capacity, i - 1);
      assert Leads(run[i - 1], steps[i - 1], run[i - 1 + 1]);
      assert steps[..i] == steps[..i - 1] + [steps[i - 1]];
      match steps[i - 1] {
        case BySender(x) => SenderOwners(run[i - 1], x, run[i]);
        case ByReceiver(x) => ReceiverOwners(run[i - 1], x, run[i]);
      }
    }
  }

  lemma SenderOwners<T>(s: State<T>, step: SenderStep<T>, t: State<T>)
    requires |s.r.buf| > 0 && ApplySender(s, step) == Some(t)
    ensures t.h.receiverUp == s.h.receiverUp
    ensures if step.DropSender? then !t.h.senderUp else t.h.senderUp == s.h.senderUp
  {
    hide Effective;
    match step { case DropSender => case _ => }
  }

  lemma ReceiverOwners<T>(s: State<T>, step: ReceiverStep, t: State<T>)
    requires |s.r.buf| > 0 && ApplyReceiver(s, step) == Some(t)
    ensures t.h.senderUp == s.h.senderUp
    ensures if step.Release? then !t.h.receiverUp else t.h.receiverUp == s.h.receiverUp
  {
    hide Effective;
    match step {
      case Poll => case LoadNeedReset => case ReadFd => case SetNeed => case TryPop(_) =>
      case Read => case Advance => case CheckClosed => case DropReceiver => case Release =>
    }
  }

  // What a poll returns: the receiver was at rest before it, and is again after it.
  datatype Polled<T> = Ready(t: T) | End | NotReady

  function Returned<T>(before: State<T>, after: State<T>): (res: Polled<T>) {
    if |after.r.popped| > |before.r.popped| then Ready(after.r.popped[|after.r.popped| - 1])
    else if after.h.parked then NotReady
    else End
  }

  // From step i on the receiver is polled, and it has not returned before step j.
  ghost predicate Polls<T>(run: seq<State<T>>, steps: seq<Step<T>>, i: nat, j: nat) {
    && i < j < |run| == |steps| + 1 && steps[i] == ByReceiver(Poll)
    && forall k: nat :: i < k < j ==> !run[k].receiver.Resting?
  }

  predicate Looks<T>(step: Step<T>) {
    step.ByReceiver? && step.receiver.TryPop?
  }

  // In the middle of a poll: nothing has been popped yet, and if the receiver has looked at the buffer, it did so at
  // step k, where it has found a value or not.
  ghost predicate Middle<T>(s: State<T>, t: State<T>, looked: bool, found: bool) {
    && t.r.popped == s.r.popped && !t.h.parked
    && match t.receiver
       case Resetting(last) => !last && !looked
       case FdReading(last) => !last && !looked
       case Setting(last) => !last && !looked
       case Popping => !t.h.needReset && !looked
       case Reading => !t.h.needReset && looked && found
       case Advancing(_) => !t.h.needReset && looked && found
       case FoundEmpty => !t.h.needReset && looked && !found
       case _ => false
  }

  // The buffer has a value for the receiver, as far as it can see.
  predicate Sees<T>(s: State<T>, step: Step<T>)
    requires Looks(step)
  {
    s.r.front < s.r.shadowRear || s.r.front < step.receiver.seen
  }

  lemma MiddleStep<T>(s: State<T>, t: State<T>, looked: bool, found: bool, step: Step<T>, u: State<T>)
    requires Inv(t) && Middle(s, t, looked, found) && Apply(t, step) == Some(u)
    ensures !u.receiver.Resting? ==>
      Middle(s, u, looked || Looks(step), if Looks(step) then Sees(t, step) else found) && (Looks(step) ==> !looked)
    ensures u.receiver.Resting? ==>
      && looked && !Looks(step)
      && (if found then u.r.popped == s.r.popped + [t.r.pushed[|s.r.popped|]] && |s.r.popped| < |t.r.pushed|
        && !u.h.parked
          else u.r.popped == s.r.popped && (u.h.parked <==> u.h.senderUp))
  {
    match step {
      case BySender(x) => SenderKeepsMiddle(t, x, u);
      case ByReceiver(x) =>
        if x == Read { ReadStep(t, u); }
    }
  }

  lemma SenderKeepsMiddle<T>(s: State<T>, step: SenderStep<T>, t: State<T>)
    requires |s.r.buf| > 0 && ApplySender(s, step) == Some(t)
    ensures t.receiver == s.receiver && t.r.popped == s.r.popped && t.h.parked == s.h.parked
      && t.h.needReset == s.h.needReset
  {
    hide Effective;
  }

  // At step n of a poll, which began at step i.
  lemma {:induction false} InPoll<T>(run: seq<State<T>>, steps: seq<Step<T>>, capacity: nat, i: nat, j: nat, n: nat)
    returns (looked: bool, k: nat)
    requires Behavior(run, steps, capacity) && Polls(run, steps, i, j) && i < n < j
    ensures looked ==> i < k < n && Looks(steps[k])
    ensures Middle(run[i], run[n], looked, looked && Sees(run[k], steps[k]))
    decreases n
  {
    hide Inv, Middle, Sees;
    AlwaysInv(run, steps, capacity, n - 1);
    assert Leads(run[n - 1], steps[n - 1], run[n - 1 + 1]);
    if n == i + 1 {
      looked, k := false, 0;
      PollStarts(run[i], run[n]);
    } else {
      looked, k := InPoll(run, steps, capacity, i, j, n - 1);
      MiddleStep(run[i], run[n - 1], looked, looked && Sees(run[k], steps[k]), steps[n - 1], run[n]);
      if Looks(steps[n - 1]) { looked, k := true, n - 1; }
    }
  }

  lemma PollStarts<T>(s: State<T>, t: State<T>)
    requires Inv(s) && ApplyReceiver(s, Poll) == Some(t)
    ensures !t.receiver.Resting? && Middle(s, t, false, false)
  {
  }

  // A whole poll, with whatever the sender does meanwhile. It looks at the buffer once, at step k. If it sees a
  // value, it returns the next of those pushed. If not, it returns NotReady as long as the sender has not given up
  // the buffer, and the end of the stream if it has.
  lemma WholePoll<T>(run: seq<State<T>>, steps: seq<Step<T>>, capacity: nat, i: nat, j: nat) returns (k: nat)
    requires Behavior(run, steps, capacity) && Polls(run, steps, i, j) && run[j].receiver.Resting?
    ensures i < k < j && Looks(steps[k])
    ensures var s, t, r := run[i], run[j], Returned(run[i], run[j]);
      && (r.Ready? <==> Sees(run[k], steps[k]))
      && (r.Ready? ==>
        |s.r.popped| < |t.r.pushed| && r.t == t.r.pushed[|s.r.popped|] && t.r.popped == s.r.popped + [r.t])
      && (!r.Ready? ==> t.r.popped == s.r.popped)
      && (r == NotReady <==> !r.Ready? && BySender(DropSender) !in steps[..j])
      && (r == End <==> !r.Ready? && BySender(DropSender) in steps[..j])
      && (r == NotReady <==> t.h.parked)
  {
    hide Inv, Middle, Sees;
    assert Leads(run[i], steps[i], run[i + 1]);
    AlwaysInv(run, steps, capacity, i);
    PollStarts(run[i], run[i + 1]);
    assert j > i + 1;
    var looked: bool;
    looked, k := InPoll(run, steps, capacity, i, j, j - 1);
    AlwaysInv(run, steps, capacity, j - 1);
    assert Leads(run[j - 1], steps[j - 1], run[j - 1 + 1]);
    MiddleStep(run[i], run[j - 1], looked, looked && Sees(run[k], steps[k]), steps[j - 1], run[j]);
    OwnersAre(run, steps, capacity, j);
    PushedGrows(run[j - 1], steps[j - 1], run[j]);
  }

  lemma PushedGrows<T>(s: State<T>, step: Step<T>, t: State<T>)
    requires |s.r.buf| > 0 && Apply(s, step) == Some(t)
    ensures s.r.pushed <= t.r.pushed
  {
    hide Effective;
  }

  // A poll that returns the end of the stream leaves values in the buffer exactly if `rear` has moved on since the
  // index seen by `try_pop`: nothing is looked at again after the sender was found gone.
  lemma EndOfStream<T>(s: State<T>, t: State<T>)
    requires Inv(s) && ApplyReceiver(s, CheckClosed) == Some(t) && !s.h.senderUp
    ensures t.receiver.Resting? && !t.h.parked
    ensures t.r.popped < t.r.pushed <==> s.r.shadowRear < s.r.rear
  {
  }

  // `send` begins to push exactly if the receiver has not given up the buffer; otherwise it is refused as disconnected.
  lemma SendIs<T>(s: State<T>, v: T, t: State<T>)
    requires |s.r.buf| > 0 && ApplySender(s, Send(v)) == Some(t)
    ensures if s.h.receiverUp then t == s.(sender := Pushing(v)) else t == s
  {
  }

  predicate InPush<T>(s: State<T>) {
    s.sender.Pushing? || s.sender.Writing? || s.sender.Publishing?
  }

  // So once the receiver has given up the buffer, nothing is pushed but what is on its way already.
  lemma {:induction false} NothingAfterRelease<T>(run: seq<State<T>>, steps: seq<Step<T>>, capacity: nat, i: nat,
    j: nat)
    requires Behavior(run, steps, capacity) && i <= j < |run|
    requires ByReceiver(Release) in steps[..i] && !InPush(run[i])
    ensures run[j].r.pushed == run[i].r.pushed && !InPush(run[j])
    decreases j
  {
    if i < j {
      NothingAfterRelease(run, steps, capacity, i, j - 1);
      assert Leads(run[j - 1], steps[j - 1], run[j - 1 + 1]);
      OwnersAre(run, steps, capacity, j - 1);
      assert steps[..i] <= steps[..j - 1];
      NotPushing(run[j - 1], steps[j - 1], run[j]);
    }
  }

  lemma NotPushing<T>(s: State<T>, step: Step<T>, t: State<T>)
    requires |s.r.buf| > 0 && Apply(s, step) == Some(t) && !s.h.receiverUp && !InPush(s)
    ensures t.r.pushed == s.r.pushed && !InPush(t)
  {
    hide Effective;
  }

  // A receiver that is dropped resets its awakener before it gives up the buffer.
  ghost predicate ResetAfterDrop<T>(steps: seq<Step<T>>) {
    exists k: nat ::
      && k < |steps| && steps[k] == ByReceiver(LoadNeedReset) && ByReceiver(DropReceiver) in steps[..k]
  }

  ghost predicate DropsInOrder<T>(s: State<T>, steps: seq<Step<T>>) {
    match s.receiver
    case Resetting(last) => last ==> ByReceiver(DropReceiver) in steps
    case FdReading(last) => last ==> ResetAfterDrop(steps)
    case Setting(last) => last ==> ResetAfterDrop(steps)
    case Leaving => ResetAfterDrop(steps)
    case Left => ResetAfterDrop(steps)
    case _ => true
  }

  lemma {:induction false} ResetsBeforeRelease<T>(run: seq<State<T>>, steps: seq<Step<T>>, capacity: nat, i: nat)
    requires Behavior(run, steps, capacity) && i < |run|
    ensures DropsInOrder(run[i], steps[..i])
    ensures ByReceiver(Release) in steps[..i] ==> ResetAfterDrop(steps[..i])
  {
    if i > 0 {
      ResetsBeforeRelease(run, steps, capacity, i - 1);
      assert Leads(run[i - 1], steps[i - 1], run[i - 1 + 1]);
      assert steps[..i] == steps[..i - 1] + [steps[i - 1]];
      OrderStep(run[i - 1], steps[..i - 1], steps[i - 1], run[i]);
    }
  }

  lemma OrderStep<T>(s: State<T>, steps: seq<Step<T>>, step: Step<T>, t: State<T>)
    requires |s.r.buf| > 0 && Apply(s, step) == Some(t) && DropsInOrder(s, steps)
    ensures DropsInOrder(t, steps + [step])
    ensures ResetAfterDrop(steps) || step == ByReceiver(Release) ==> ResetAfterDrop(steps + [step])
  {
    hide Effective;
    if ResetAfterDrop(steps) {
      var k: nat :| k < |steps| && steps[k] == ByReceiver(LoadNeedReset) && ByReceiver(DropReceiver) in steps[..k];
      assert (steps + [step])[..k] == steps[..k] && (steps + [step])[k] == steps[k];
      assert ResetAfterDrop(steps + [step]);
    }
    assert (steps + [step])[..|steps|] == steps && (steps + [step])[|steps|] == step;
    if step.BySender? { SenderKeepsMiddle(s, step.sender, t); }
  }

  // ---- RingBuffer::drop ----

  // `try_pop` by the last owner of the buffer, who sees everything.
  function TryPopNow<T>(s: State<T>): (res: Option<(State<T>, T)>)
    requires |s.r.buf| > 0
  {
    var a := ApplyReceiver(s.(receiver := Popping), TryPop(s.r.rear));
    if a.None? || a.value.receiver.FoundEmpty? then None
    else
      var b := ApplyReceiver(a.value, Read);
      if b.None? || !b.value.receiver.Advancing? then None
      else
        var c := ApplyReceiver(b.value, Advance);
        if c.None? then None else Some((c.value.(receiver := Left), b.value.receiver.t))
  }

  lemma TryPopNowPops<T>(s: State<T>)
    requires RingInv(s) && (s.sender.Gone? || InWakeup(s)) && s.receiver.Left?
    ensures TryPopNow(s).None? <==> s.r.front == s.r.rear
    ensures TryPopNow(s).Some? ==>
      var (t, v) := TryPopNow(s).value;
      && RingInv(t) && t.sender == s.sender && t.receiver == s.receiver && v == s.r.pushed[s.r.front]
      && t.r.front == s.r.front + 1 && t.r.rear == s.r.rear && t.r.pushed == s.r.pushed
      && t.r.popped == s.r.popped + [v]
  {
    var s1 := s.(receiver := Popping);
    SlotsFrame(s, s1);
    var a := ApplyReceiver(s1, TryPop(s.r.rear)).value;
    RingStep(s1, ByReceiver(TryPop(s.r.rear)), a);
    if !a.receiver.FoundEmpty? {
      var c := ReadAndAdvance(a);
      SlotsFrame(c, c.(receiver := Left));
    }
  }

  lemma ReadAndAdvance<T>(a: State<T>) returns (c: State<T>)
    requires RingInv(a) && a.receiver.Reading?
    ensures var b := ApplyReceiver(a, Read);
      b.Some? && b.value.receiver == Advancing(a.r.pushed[a.r.front]) && |b.value.r.buf| > 0
      && ApplyReceiver(b.value, Advance) == Some(c)
    ensures RingInv(c) && c.receiver == Resting && c.sender == a.sender
    ensures c.r.front == a.r.front + 1 && c.r.rear == a.r.rear && c.r.pushed == a.r.pushed
    ensures c.r.popped == a.r.popped + [a.r.pushed[a.r.front]]
  {
    EffectiveIsMod(a, a.r.front);
    assert a.r.buf[a.r.front % |a.r.buf|] == Some(Item(a, a.r.front));
    var b := ApplyReceiver(a, Read).value;
    ReadStep(a, b);
    c := ApplyReceiver(b, Advance).value;
    RingStep(b, ByReceiver(Advance), c);
  }

  // When both sides have given the buffer up (the sender may still be in its last `wakeup`), the values still in it
  // are dropped: with those popped before they are all the values ever pushed, in order, and no slot keeps one.
  method DropRing<T>(s: State<T>) returns (dropped: seq<T>, r: Ring<T>)
    requires Inv(s) && !s.h.senderUp && !s.h.receiverUp
    ensures s.r.popped + dropped == s.r.pushed
    ensures |r.buf| == |s.r.buf| && forall j :: 0 <= j < |r.buf| ==> r.buf[j].None?
  {
    var t := s;
    dropped := [];
    while true
      invariant RingInv(t) && (t.sender.Gone? || InWakeup(t)) && t.receiver.Left? && |t.r.buf| == |s.r.buf|
      invariant t.r.pushed == s.r.pushed && t.r.popped == s.r.popped + dropped
      decreases t.r.rear - t.r.front
    {
      TryPopNowPops(t);
      match TryPopNow(t) {
        case None => break;
        case Some((t', v)) => t, dropped := t', dropped + [v];
      }
    }
    r := t.r;
  }

  // ---- how a wakeup is lost ----

  function Exec<T>(s: State<T>, steps: seq<Step<T>>): (res: Option<State<T>>)
    decreases |steps|
  {
    if steps == [] then Some(s)
    else if |s.r.buf| == 0 then None
    else
      match Apply(s, steps[0])
      case None => None
      case Some(t) => Exec(t, steps[1..])
  }

  // The sender pushes x, wakes the receiver, pushes y, and then sees that a wakeup is under way.
  function BothSent<T>(x: T, y: T): (r: State<T>) {
    State(Ring(2, [Some(x), Some(y)], 0, 0, 2, 0, [x, y], []), Hand(false, true, true, true, true, false, false),
      Idle, Resting, false)
  }

  // The receiver takes the wakeup, and pops x with a load that does not see y yet.
  function FirstTaken<T>(x: T, y: T): (r: State<T>) {
    State(Ring(2, [None, Some(y)], 1, 1, 2, 0, [x, y], [x]), Hand(true, false, true, true, false, false, false),
      Idle, Resting, false)
  }

  // The sender has pushed x and woken the receiver.
  function OneSent<T>(x: T): (r: State<T>) {
    State(Ring(2, [Some(x), None], 0, 0, 1, 0, [x], []), Hand(false, true, true, true, true, false, false), Idle,
      Resting, false)
  }

  lemma FirstSend<T>(x: T) returns (steps: seq<Step<T>>)
    ensures Exec(Init<T>(2), steps) == Some(OneSent(x))
  {
    var s0 := Init<T>(2);
    assert s0.r.buf == [None, None] by { assert Pow2(CeilLog2(2)) == 2; }
    var s1 := s0.(sender := Writing(x));
    var s2 := s0.(r := s0.r.(buf := [Some(x), None], rear := 1, pushed := [x]), sender := Waking);
    var p0, p1 := [BySender(Send(x)), BySender(TryPush(0))], [BySender(Write), BySender(Publish)];
    var p2 := [BySender(LoadNeed), BySender(WriteFd), BySender(ClearNeed)];
    ExecTwo(s0, p0, s1);
    assert Effective(s1.r, 0) == 0 && [None, None][0 := Some(x)] == [Some(x), None] && [] + [x] == [x];
    ExecTwo(s1, p1, s2);
    assert Exec(s2, p2) == Some(OneSent(x));
    ExecConcat(s1, p1, p2, s2);
    ExecConcat(s0, p0, p1 + p2, s1);
    steps := p0 + (p1 + p2);
  }

  lemma SecondSend<T>(x: T, y: T) returns (steps: seq<Step<T>>)
    ensures Exec(OneSent(x), steps) == Some(BothSent(x, y))
  {
    var s0 := OneSent(x);
    var s1 := s0.(sender := Writing(y));
    var p0, p1 := [BySender(Send(y)), BySender(TryPush(0))], [BySender(Write), BySender(Publish), BySender(LoadNeed)];
    ExecTwo(s0, p0, s1);
    assert Effective(s1.r, 1) == 1 && [Some(x), None][1 := Some(y)] == [Some(x), Some(y)] && [x] + [y] == [x, y];
    assert Exec(s1, p1) == Some(BothSent(x, y));
    ExecConcat(s0, p0, p1, s1);
    steps := p0 + p1;
  }

  lemma TakeRun<T>(x: T, y: T) returns (steps: seq<Step<T>>)
    ensures Exec(BothSent(x, y), steps) == Some(FirstTaken(x, y))
  {
    var s0 := BothSent(x, y);
    var s1 := s0.(h := Hand(true, false, true, true, false, false, false), receiver := Popping);
    var reset: seq<Step<T>> := [ByReceiver(Poll), ByReceiver(LoadNeedReset), ByReceiver(ReadFd), ByReceiver(SetNeed)];
    assert Exec(s0, reset) == Some(s1);
    var pop := PopRun(x, y, s1);
    ExecConcat(s0, reset, pop, s1);
    steps := reset + pop;
  }

  lemma PopRun<T>(x: T, y: T, s: State<T>) returns (steps: seq<Step<T>>)
    requires s == BothSent(x, y).(h := Hand(true, false, true, true, false, false, false), receiver := Popping)
    ensures Exec(s, steps) == Some(FirstTaken(x, y))
  {
    assert Effective(s.r, 0) == 0 && [Some(x), Some(y)][0 := None] == [None, Some(y)] && [] + [x] == [x];
    steps := [ByReceiver(TryPop(1)), ByReceiver(Read), ByReceiver(Advance)];
  }

  // The store of `rear` by which the sender publishes the second value may become visible to the receiver later than
  // the receiver's store of `need_wakeup` to the sender: neither is ordered against the load that follows it. Then
  // the sender sees no need for a wakeup, the receiver sees no value, and goes to sleep on it.
  lemma StaleLoadLosesWakeup<T>(x: T, y: T) returns (steps: seq<Step<T>>, t: State<T>)
    ensures Exec(Init<T>(2), steps) == Some(t)
    ensures t.h.parked && t.h.stale && t.r.front < t.r.rear && !t.h.fd && !InWakeup(t) && !t.misuse
  {
    var send := FirstSend(x);
    var again := SecondSend(x, y);
    var take := TakeRun(x, y);
    var s := FirstTaken(x, y);
    var park: seq<Step<T>> := [ByReceiver(Poll), ByReceiver(TryPop(1)), ByReceiver(CheckClosed)];
    t := s.(h := Hand(true, false, true, true, true, true, true));
    assert Exec(s, park) == Some(t);
    ExecConcat(BothSent(x, y), take, park, s);
    ExecConcat(OneSent(x), again, take + park, BothSent(x, y));
    ExecConcat(Init<T>(2), send, again + (take + park), OneSent(x));
    steps := send + (again + (take + park));
  }

  // The receiver has found the buffer empty; in the second state one value has been pushed since.
  function Looked<T>(): (r: State<T>) {
    var s := Init<T>(2);
    s.(r := s.r.(buf := [None, None]), h := s.h.(needReset := false), receiver := FoundEmpty)
  }

  function Pushed<T>(x: T): (r: State<T>) {
    var s := Looked<T>();
    s.(r := s.r.(buf := [Some(x), None], rear := 1, pushed := [x]), sender := Waking)
  }

  lemma LookRun<T>() returns (steps: seq<Step<T>>)
    ensures Exec(Init<T>(2), steps) == Some(Looked<T>())
  {
    assert Init<T>(2).r.buf == [None, None] by { assert Pow2(CeilLog2(2)) == 2; }
    steps := [ByReceiver(Poll), ByReceiver(LoadNeedReset), ByReceiver(TryPop(0))];
  }

  lemma LatePush<T>(x: T) returns (steps: seq<Step<T>>)
    ensures Exec(Looked<T>(), steps) == Some(Pushed(x))
  {
    var s := Looked<T>().(sender := Writing(x));
    var p0, p1 := [BySender(Send(x)), BySender(TryPush(0))], [BySender(Write), BySender(Publish)];
    ExecTwo(Looked<T>(), p0, s);
    assert Effective(s.r, 0) == 0 && [None, None][0 := Some(x)] == [Some(x), None] && [] + [x] == [x];
    ExecTwo(s, p1, Pushed(x));
    ExecConcat(Looked<T>(), p0, p1, s);
    steps := p0 + p1;
  }

  // Either side can be dropped at once: the receiver is woken, and finds that the sender has gone.
  lemma SenderDrops<T>() returns (steps: seq<Step<T>>, s: State<T>)
    ensures Exec(Init<T>(2), steps) == Some(s) && s.sender.Gone? && !s.h.senderUp && s.h.fd
  {
    steps := [BySender(DropSender), BySender(LoadNeed), BySender(WriteFd), BySender(ClearNeed)];
    var init := Init<T>(2);
    assert |init.r.buf| == 2 by { assert Pow2(CeilLog2(2)) == 2; }
    s := init.(sender := Gone, h := init.h.(senderUp := false, fd := true, needWakeup := false));
  }

  // The sender finds that the receiver has gone.
  lemma ReceiverDrops<T>(x: T) returns (steps: seq<Step<T>>, s: State<T>)
    ensures Exec(Init<T>(2), steps) == Some(s) && s.receiver.Left? && !s.h.receiverUp
    ensures |s.r.buf| > 0 && ApplySender(s, Send(x)) == Some(s)
  {
    steps := [ByReceiver(DropReceiver), ByReceiver(LoadNeedReset), ByReceiver(Release)];
    var init := Init<T>(2);
    assert |init.r.buf| == 2 by { assert Pow2(CeilLog2(2)) == 2; }
    s := init.(receiver := Left, h := init.h.(receiverUp := false, needReset := false));
  }

  // The sender pushes its last value and goes between the receiver's look at the buffer and its look for the sender:
  // the poll returns the end of the stream, with the value in the buffer and no load stale.
  lemma LastValueMissed<T>(x: T) returns (steps: seq<Step<T>>, s: State<T>, t: State<T>)
    ensures Exec(Init<T>(2), steps) == Some(s) && s.receiver.FoundEmpty? && !s.h.stale && !s.h.senderUp
    ensures |s.r.buf| > 0 && ApplyReceiver(s, CheckClosed) == Some(t) && !t.h.parked && t.r.pushed == [x]
      && t.r.popped == []
  {
    var look := LookRun<T>();
    var push := LatePush(x);
    var go: seq<Step<T>> := [BySender(LoadNeed), BySender(WriteFd), BySender(ClearNeed), BySender(DropSender)];
    s := Pushed(x).(h := Hand(false, true, false, true, false, false, false));
    assert Exec(Pushed(x), go) == Some(s);
    ExecConcat(Looked<T>(), push, go, Pushed(x));
    ExecConcat(Init<T>(2), look, push + go, Looked<T>());
    steps := look + (push + go);
    t := s.(h := s.h.(needReset := true), receiver := Resting);
  }

  lemma ExecTwo<T>(s: State<T>, p: seq<Step<T>>, t: State<T>)
    requires |p| == 2 && |s.r.buf| > 0
    requires var u := Apply(s, p[0]); u.Some? && |u.value.r.buf| > 0 && Apply(u.value, p[1]) == Some(t)
    ensures Exec(s, p) == Some(t)
  {
    var u := Apply(s, p[0]).value;
    calc {
      Exec(s, p);
      Exec(u, p[1..]);
      { assert p[1..] != [] && p[1..][0] == p[1]; }
      Exec(t, p[1..][1..]);
      { assert p[1..][1..] == []; }
      Some(t);
    }
  }

  lemma {:induction false} ExecConcat<T>(s: State<T>, p: seq<Step<T>>, q: seq<Step<T>>, t: State<T>)
    requires Exec(s, p) == Some(t)
    ensures Exec(s, p + q) == Exec(t, q)
    decreases |p|
  {
    if p == [] {
      assert p + q == q;
    } else {
      assert (p + q)[1..] == p[1..] + q;
      ExecConcat(Apply(s, p[0]).value, p[1..], q, t);
    }
  }
}
