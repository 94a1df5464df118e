// src/reactor/wheel.rs: the circular list through the slots and the entries of the timing wheel, and what
// the link assignments of the source do to it.
module WheelLinks {
  import opened Slabs

  const NUM_SLOTS: nat := 128
  const NONE: nat := NUM_SLOTS  // "no bucket is open"

  type TaskId = nat

  datatype Token = Entry(id: nat) | Slot(idx: nat) | Nil

  datatype TimerEntry = TimerEntry(prev: Token, next: Token, task: TaskId, expiration: Option<nat>)

  datatype SlotLinks = SlotLinks(prev: Token, next: Token)

  // The memory of the wheel: the slots, and the entries in use by their index in the slab.
  datatype Mem = Mem(slots: seq<SlotLinks>, entries: map<nat, TimerEntry>)

  predicate Has(w: Mem, t: Token) {
    match t
    case Entry(id) => id in w.entries
    case Slot(i) => i < |w.slots|
    case Nil => false
  }

  function Next(w: Mem, t: Token): (r: Token) {
    if !Has(w, t) then Nil
    else match t
      case Entry(id) => w.entries[id].next
      case Slot(i) => w.slots[i].next
  }

  function Prev(w: Mem, t: Token): (r: Token) {
    if !Has(w, t) then Nil
    else match t
      case Entry(id) => w.entries[id].prev
      case Slot(i) => w.slots[i].prev
  }

  function SetNext(w: Mem, t: Token, v: Token): (r: Mem)
    requires Has(w, t)
  {
    match t
    case Entry(id) => w.(entries := w.entries[id := w.entries[id].(next := v)])
    case Slot(i) => w.(slots := w.slots[i := w.slots[i].(next := v)])
  }

  function SetPrev(w: Mem, t: Token, v: Token): (r: Mem)
    requires Has(w, t)
  {
    match t
    case Entry(id) => w.(entries := w.entries[id := w.entries[id].(prev := v)])
    case Slot(i) => w.(slots := w.slots[i := w.slots[i].(prev := v)])
  }

  // Links entry `id` in before slot `s` (the second half of `schedule` and `reschedule_internal`).
  function LinkBefore(w: Mem, s: nat, id: nat): (r: Mem)
    requires s < |w.slots| && id in w.entries && Has(w, w.slots[s].prev)
  {
    var prev := w.slots[s].prev;
    var w1 := SetPrev(SetNext(w, Entry(id), Slot(s)), Entry(id), prev);
    SetPrev(SetNext(w1, prev, Entry(id)), Slot(s), Entry(id))
  }

  // Takes entry `id` out of the list; its own links are left as they are.
  function Unlink(w: Mem, id: nat): (r: Mem)
    requires id in w.entries && Has(w, w.entries[id].prev) && Has(w, w.entries[id].next)
  {
    var e := w.entries[id];
    SetPrev(SetNext(w, e.prev, e.next), e.next, e.prev)
  }

  // Marks entry `id` as expired.
  function Detach(w: Mem, id: nat): (r: Mem)
    requires id in w.entries
  {
    SetPrev(SetNext(w, Entry(id), Nil), Entry(id), Nil)
  }

  // Joins two tokens.
  function Join(w: Mem, a: Token, b: Token): (r: Mem)
    requires Has(w, a) && Has(w, b)
  {
    SetPrev(SetNext(w, a, b), b, a)
  }

  // ---- the ring as 128 buckets ----

  // Bucket s holds the entries between slot s - 1 and slot s, in list order.
  type Buckets = seq<seq<nat>>

  // The slots before and after slot s on the circle.
  function Before(s: nat): (r: nat)
    requires s < NUM_SLOTS
    ensures r < NUM_SLOTS && After(r) == s
  {
    if s == 0 then NUM_SLOTS - 1 else s - 1
  }

  function After(s: nat): (r: nat)
    requires s < NUM_SLOTS
    ensures r < NUM_SLOTS
  {
    if s + 1 == NUM_SLOTS then 0 else s + 1
  }

  ghost predicate Adjacent(w: Mem, a: Token, b: Token) {
    Has(w, a) && Has(w, b) && Next(w, a) == b && Prev(w, b) == a
  }

  // Going from x by `next` one meets exactly the entries `ids` and then y, and `prev` goes back the same way.
  ghost predicate Segment(w: Mem, x: Token, ids: seq<nat>, y: Token)
    decreases |ids|
  {
    if ids == [] then Adjacent(w, x, y)
    else Adjacent(w, x, Entry(ids[0])) && Segment(w, Entry(ids[0]), ids[1..], y)
  }

  // Bucket s is properly linked. The bucket that a tick is draining is `open`: nothing leads to its first
  // entry any more but the local variable of `tick`.
  ghost predicate Linked(w: Mem, b: Buckets, s: nat, open: nat)
    requires s < |b| == NUM_SLOTS
  {
    if s != open then Segment(w, Slot(Before(s)), b[s], Slot(s))
    else b[s] == [] || Segment(w, Entry(b[s][0]), b[s][1..], Slot(s))
  }

  predicate NoDup(ids: seq<nat>) {
    forall j, k :: 0 <= j < k < |ids| ==> ids[j] != ids[k]
  }

  ghost predicate Placed(b: Buckets, id: nat) {
    exists s :: 0 <= s < |b| && id in b[s]
  }

  ghost predicate Distinct(b: Buckets) {
    && (forall s :: 0 <= s < |b| ==> NoDup(b[s]))
    && (forall s, r, id: nat :: 0 <= s < |b| && 0 <= r < |b| && id in b[s] && id in b[r] ==> s == r)
  }

  // The representation invariant: `b` is what the links spell out, and the entries in no bucket are the
  // expired ones.
  ghost predicate Ring(w: Mem, b: Buckets, open: nat) {
    && |w.slots| == |b| == NUM_SLOTS
    && Distinct(b)
    && (forall s: nat :: s < NUM_SLOTS ==> Linked(w, b, s, open))
    && (forall s, id: nat :: 0 <= s < |b| && id in b[s] ==> id in w.entries)
    && (forall id: nat :: id in w.entries && !Placed(b, id) ==> w.entries[id].prev == w.entries[id].next == Nil)
  }

  function Last(x: Token, ids: seq<nat>): (r: Token) {
    if ids == [] then x else Entry(ids[|ids| - 1])
  }

  function Head(ids: seq<nat>, y: Token): (r: Token) {
    if ids == [] then y else Entry(ids[0])
  }

  // ---- segments ----

  lemma {:induction false} SegmentEnds(w: Mem, x: Token, ids: seq<nat>, y: Token)
    requires Segment(w, x, ids, y)
    ensures Has(w, x) && Has(w, y) && Next(w, x) == Head(ids, y) && Prev(w, y) == Last(x, ids)
    ensures Has(w, Last(x, ids))
    decreases |ids|
  {
    if ids != [] { SegmentEnds(w, Entry(ids[0]), ids[1..], y); }
  }

  lemma {:induction false} SegmentSplit(w: Mem, x: Token, l: seq<nat>, m: nat, r: seq<nat>, y: Token)
    ensures Segment(w, x, l + [m] + r, y) <==> Segment(w, x, l, Entry(m)) && Segment(w, Entry(m), r, y)
    decreases |l|
  {
    var ids := l + [m] + r;
    if l == [] {
      assert ids[1..] == r;
    } else {
      assert ids[1..] == l[1..] + [m] + r;
      SegmentSplit(w, Entry(l[0]), l[1..], m, r, y);
    }
  }

  lemma {:induction false} SegmentJoin(w: Mem, x: Token, l: seq<nat>, r: seq<nat>, y: Token)
    ensures Segment(w, x, l + r, y) <==>
      Segment(w, x, l, Head(r, y)) && (r == [] || Segment(w, Entry(r[0]), r[1..], y))
    decreases |l|
  {
    if l == [] {
      assert l + r == r;
    } else {
      assert (l + r)[1..] == l[1..] + r;
      SegmentJoin(w, Entry(l[0]), l[1..], r, y);
    }
  }

  // A segment keeps its shape as long as the links inside it do.
  lemma {:induction false} SegmentFrame(w: Mem, v: Mem, x: Token, ids: seq<nat>, y: Token)
    requires Segment(w, x, ids, y)
    requires Has(v, x) && Has(v, y) && Next(v, x) == Next(w, x) && Prev(v, y) == Prev(w, y)
    requires forall id :: id in ids ==> id in w.entries && id in v.entries
    requires forall id :: id in ids ==>
      v.entries[id].next == w.entries[id].next && v.entries[id].prev == w.entries[id].prev
    ensures Segment(v, x, ids, y)
    decreases |ids|
  {
    if ids != [] {
      var id := ids[0];
      assert id in ids;
      SegmentFrame(w, v, Entry(id), ids[1..], y);
    }
  }

  // The same, with the end of the segment moved from y to z.
  lemma {:induction false} SegmentRetarget(w: Mem, v: Mem, x: Token, ids: seq<nat>, y: Token, z: Token)
    requires Segment(w, x, ids, y)
    requires Has(v, x) && Has(v, z)
    requires Next(v, Last(x, ids)) == z && Prev(v, z) == Last(x, ids)
    requires ids != [] ==> Next(v, x) == Next(w, x)
    requires forall k :: 0 <= k < |ids| ==>
      ids[k] in w.entries && ids[k] in v.entries && v.entries[ids[k]].prev == w.entries[ids[k]].prev
    requires forall k :: 0 <= k < |ids| - 1 ==> v.entries[ids[k]].next == w.entries[ids[k]].next
    ensures Segment(v, x, ids, z)
    decreases |ids|
  {
    if ids != [] {
      var id := ids[0];
      assert id in ids;
      assert Last(Entry(id), ids[1..]) == Last(x, ids);
      SegmentRetarget(w, v, Entry(id), ids[1..], y, z);
    }
  }

  lemma {:induction false} SegmentMembers(w: Mem, x: Token, ids: seq<nat>, y: Token)
    requires Segment(w, x, ids, y)
    ensures forall id :: id in ids ==> id in w.entries && w.entries[id].prev != Nil && w.entries[id].next != Nil
    decreases |ids|
  {
    if ids != [] { SegmentMembers(w, Entry(ids[0]), ids[1..], y); }
  }

  // ---- the ring under each operation ----

  lemma LinkedFrame(w: Mem, v: Mem, b: Buckets, c: Buckets, s: nat, open: nat)
    requires s < |b| == |c| == |w.slots| == |v.slots| == NUM_SLOTS && b[s] == c[s]
    requires Linked(w, b, s, open)
    requires s != open ==> v.slots[Before(s)].next == w.slots[Before(s)].next
    requires v.slots[s].prev == w.slots[s].prev
    requires forall id :: id in b[s] ==> id in w.entries && id in v.entries
    requires forall id :: id in b[s] ==>
      v.entries[id].next == w.entries[id].next && v.entries[id].prev == w.entries[id].prev
    ensures Linked(v, c, s, open)
  {
    if s != open {
      SegmentFrame(w, v, Slot(Before(s)), b[s], Slot(s));
    } else if b[s] != [] {
      assert b[s][0] in b[s];
      SegmentFrame(w, v, Entry(b[s][0]), b[s][1..], Slot(s));
    }
  }

  // A placed entry has both links; so `prev` alone tells the linked entries from the expired ones.
  lemma PlacedIffLinked(w: Mem, b: Buckets, id: nat)
    requires Ring(w, b, NONE) && id in w.entries
    ensures w.entries[id].prev == Nil <==> !Placed(b, id)
    ensures Placed(b, id) ==> Has(w, w.entries[id].prev) && Has(w, w.entries[id].next)
  {
    if Placed(b, id) {
      var s :| 0 <= s < |b| && id in b[s];
      var k :| 0 <= k < |b[s]| && b[s][k] == id;
      assert Linked(w, b, s, NONE);
      EntryLinks(w, Slot(Before(s)), b[s], Slot(s), k);
    }
  }

  lemma EntryLinks(w: Mem, x: Token, ids: seq<nat>, y: Token, k: nat)
    requires Segment(w, x, ids, y) && k < |ids|
    ensures Has(w, Entry(ids[k])) && Has(w, w.entries[ids[k]].prev) && Has(w, w.entries[ids[k]].next)
    ensures w.entries[ids[k]].prev == Last(x, ids[..k])
    ensures w.entries[ids[k]].next == Head(ids[k + 1..], y)
  {
    assert ids == ids[..k] + [ids[k]] + ids[k + 1..];
    SegmentSplit(w, x, ids[..k], ids[k], ids[k + 1..], y);
    SegmentEnds(w, x, ids[..k], Entry(ids[k]));
    SegmentEnds(w, Entry(ids[k]), ids[k + 1..], y);
  }

  lemma LinkRing(w: Mem, b: Buckets, s: nat, id: nat, open: nat)
    requires Ring(w, b, open) && s < NUM_SLOTS && s != open
    requires id in w.entries && !Placed(b, id)
    ensures Has(w, w.slots[s].prev)
    ensures Ring(LinkBefore(w, s, id), b[s := b[s] + [id]], open)
  {
    LinkOwn(w, b, s, id, open);
    var v, c := LinkBefore(w, s, id), b[s := b[s] + [id]];
    forall r: nat | r < NUM_SLOTS ensures Linked(v, c, r, open) {
      if r != s { LinkOther(w, b, s, id, r, open); }
    }
    hide Linked;
    forall e: nat | e in v.entries && !Placed(c, e) ensures v.entries[e].prev == v.entries[e].next == Nil {
      assert id in c[s];
      assert forall r :: 0 <= r < |b| && e in b[r] ==> e in c[r];
    }
  }

  lemma LinkOwn(w: Mem, b: Buckets, s: nat, id: nat, open: nat)
    requires Ring(w, b, open) && s < NUM_SLOTS && s != open && id in w.entries && !Placed(b, id)
    ensures Has(w, w.slots[s].prev) && w.slots[s].prev == Last(Slot(Before(s)), b[s])
    ensures Linked(LinkBefore(w, s, id), b[s := b[s] + [id]], s, open)
  {
    assert Linked(w, b, s, open);
    var x, ids := Slot(Before(s)), b[s];
    SegmentEnds(w, x, ids, Slot(s));
    var v := LinkBefore(w, s, id);
    assert id !in ids;
    SegmentRetarget(w, v, x, ids, Slot(s), Entry(id));
    assert ids + [id] + [] == ids + [id];
    SegmentSplit(v, x, ids, id, [], Slot(s));
  }

  lemma LinkOther(w: Mem, b: Buckets, s: nat, id: nat, r: nat, open: nat)
    requires Ring(w, b, open) && s < NUM_SLOTS && s != open && id in w.entries && !Placed(b, id) && r < NUM_SLOTS
      && r != s
    requires Has(w, w.slots[s].prev) && w.slots[s].prev == Last(Slot(Before(s)), b[s])
    ensures Linked(LinkBefore(w, s, id), b[s := b[s] + [id]], r, open)
  {
    assert Linked(w, b, r, open);
    LinkedFrame(w, LinkBefore(w, s, id), b, b[s := b[s] + [id]], r, open);
  }

  predicate Unlinkable(w: Mem, id: nat) {
    && id in w.entries && Has(w, w.entries[id].prev) && Has(w, w.entries[id].next)
    && w.entries[id].prev != Entry(id) && w.entries[id].next != Entry(id)
  }

  // v is w with entry `id` taken out: link by link.
  ghost predicate Cut(w: Mem, v: Mem, id: nat)
    requires id in w.entries
  {
    var e := w.entries[id];
    && |v.slots| == |w.slots| && v.entries.Keys == w.entries.Keys
    && (forall i :: 0 <= i < |w.slots| ==>
          && v.slots[i].next == (if e.prev == Slot(i) then e.next else w.slots[i].next)
          && v.slots[i].prev == (if e.next == Slot(i) then e.prev else w.slots[i].prev))
    && (forall i :: i in w.entries && i != id ==>
          && v.entries[i].next == (if e.prev == Entry(i) then e.next else w.entries[i].next)
          && v.entries[i].prev == (if e.next == Entry(i) then e.prev else w.entries[i].prev))
    && v.entries[id].prev == v.entries[id].next == Nil
  }

  lemma UnlinkCuts(w: Mem, id: nat)
    requires Unlinkable(w, id)
    ensures Cut(w, Detach(Unlink(w, id), id), id)
  {
  }

  lemma NoDupParts(ids: seq<nat>, k: nat)
    requires NoDup(ids) && k < |ids|
    ensures NoDup(ids[..k]) && NoDup(ids[k + 1..]) && ids[k] !in ids[..k] && ids[k] !in ids[k + 1..]
    ensures forall i :: i in ids[..k] ==> i in ids && i !in ids[k + 1..]
    ensures forall i :: i in ids[k + 1..] ==> i in ids
    ensures ids == ids[..k] + [ids[k]] + ids[k + 1..]
  {
  }

  // Taking the k-th entry out of a segment joins what was before it to what was after it.
  lemma UnlinkSegment(w: Mem, v: Mem, x: Token, ids: seq<nat>, y: Token, k: nat)
    requires Segment(w, x, ids, y) && k < |ids| && NoDup(ids)
    requires (x.Entry? ==> x.id !in ids) && x != y && !y.Entry?
    requires ids[k] in w.entries && Cut(w, v, ids[k])
    ensures Segment(v, x, ids[..k] + ids[k + 1..], y)
  {
    var l, r := ids[..k], ids[k + 1..];
    EntryLinks(w, x, ids, y, k);
    NoDupParts(ids, k);
    SegmentSplit(w, x, l, ids[k], r, y);
    JoinLeft(w, v, x, l, ids[k], r, y);
    if r != [] { JoinRight(w, v, x, l, ids[k], r, y); }
    SegmentJoin(v, x, l, r, y);
  }

  lemma JoinLeft(w: Mem, v: Mem, x: Token, l: seq<nat>, id: nat, r: seq<nat>, y: Token)
    requires Segment(w, x, l, Entry(id)) && Segment(w, Entry(id), r, y)
    requires NoDup(l) && id !in l && (forall i :: i in l ==> i !in r)
    requires x.Entry? ==> x.id != id && x.id !in l && x.id !in r
    requires x != y && !y.Entry?
    requires id in w.entries && Cut(w, v, id)
    requires w.entries[id].prev == Last(x, l) && w.entries[id].next == Head(r, y)
    ensures Segment(v, x, l, Head(r, y))
  {
    SegmentEnds(w, x, l, Entry(id));
    SegmentEnds(w, Entry(id), r, y);
    SegmentMembers(w, x, l, Entry(id));
    if r != [] { assert r[0] in r; }
    SegmentRetarget(w, v, x, l, Entry(id), Head(r, y));
  }

  lemma JoinRight(w: Mem, v: Mem, x: Token, l: seq<nat>, id: nat, r: seq<nat>, y: Token)
    requires Segment(w, Entry(id), r, y) && r != []
    requires NoDup(r) && id !in r && (forall i :: i in l ==> i !in r)
    requires x.Entry? ==> x.id != id && x.id !in l && x.id !in r
    requires x != y && !y.Entry?
    requires id in w.entries && Cut(w, v, id)
    requires w.entries[id].prev == Last(x, l) && w.entries[id].next == Entry(r[0])
    ensures Segment(v, Entry(r[0]), r[1..], y)
  {
    SegmentEnds(w, Entry(id), r, y);
    SegmentMembers(w, Entry(id), r, y);
    assert r[0] in r;
    assert forall i :: i in r[1..] ==> i in r && i != r[0];
    assert Last(x, l) == x || Last(x, l).id in l;
    SegmentFrame(w, v, Entry(r[0]), r[1..], y);
  }

  // The neighbours of the k-th entry of bucket s are in the same bucket, or the slots at its ends.
  ghost predicate Near(w: Mem, b: Buckets, s: nat, id: nat, open: nat)
    requires s < |b| == NUM_SLOTS
  {
    && Unlinkable(w, id)
    && (if w.entries[id].prev.Entry? then w.entries[id].prev.id in b[s]
      else w.entries[id].prev == Slot(Before(s)) && s != open)
    && (if w.entries[id].next.Entry? then w.entries[id].next.id in b[s] else w.entries[id].next == Slot(s))
  }

  lemma EntryNear(w: Mem, b: Buckets, s: nat, k: nat, open: nat)
    requires Ring(w, b, open) && s < NUM_SLOTS && k < |b[s]| && (s == open ==> k > 0)
    ensures Near(w, b, s, b[s][k], open)
  {
    assert Linked(w, b, s, open);
    if s != open {
      EntryLinks(w, Slot(Before(s)), b[s], Slot(s), k);
    } else {
      EntryLinks(w, Entry(b[s][0]), b[s][1..], Slot(s), k - 1);
    }
  }

  lemma UnlinkRing(w: Mem, b: Buckets, s: nat, k: nat, open: nat)
    requires Ring(w, b, open) && s < NUM_SLOTS && k < |b[s]| && (s == open ==> k > 0)
    ensures Unlinkable(w, b[s][k])
    ensures Ring(Detach(Unlink(w, b[s][k]), b[s][k]), b[s := b[s][..k] + b[s][k + 1..]], open)
  {
    var id, c := b[s][k], b[s := b[s][..k] + b[s][k + 1..]];
    EntryNear(w, b, s, k, open);
    UnlinkCuts(w, id);
    var v := Detach(Unlink(w, id), id);
    UnlinkOwn(w, v, b, s, k, c, open);
    UnlinkOthers(w, v, b, s, k, c, open);
  }

  lemma UnlinkOwn(w: Mem, v: Mem, b: Buckets, s: nat, k: nat, c: Buckets, open: nat)
    requires Ring(w, b, open) && s < NUM_SLOTS && k < |b[s]| && (s == open ==> k > 0)
    requires c == b[s := b[s][..k] + b[s][k + 1..]]
    requires Near(w, b, s, b[s][k], open) && Cut(w, v, b[s][k])
    ensures Linked(v, c, s, open)
  {
    assert Linked(w, b, s, open);
    if s != open {
      UnlinkSegment(w, v, Slot(Before(s)), b[s], Slot(s), k);
    } else {
      var ids := b[s][1..];
      assert ids[k - 1] == b[s][k];
      UnlinkSegment(w, v, Entry(b[s][0]), ids, Slot(s), k - 1);
      assert c[s][1..] == ids[..k - 1] + ids[k..];
    }
  }

  lemma UnlinkOthers(w: Mem, v: Mem, b: Buckets, s: nat, k: nat, c: Buckets, open: nat)
    requires Ring(w, b, open) && s < NUM_SLOTS && k < |b[s]|
    requires c == b[s := b[s][..k] + b[s][k + 1..]]
    requires Near(w, b, s, b[s][k], open) && Cut(w, v, b[s][k])
    requires Linked(v, c, s, open)
    ensures Ring(v, c, open)
  {
    hide Linked, Near, Cut;
    UnlinkDistinct(b, s, k, c);
    forall q: nat | q < NUM_SLOTS ensures Linked(v, c, q, open) {
      if q != s { UnlinkOther(w, v, b, s, b[s][k], c, q, open); }
    }
    forall e: nat | e in v.entries && !Placed(c, e) ensures v.entries[e].prev == v.entries[e].next == Nil {
      UnlinkUnplaced(w, v, b, s, k, c, open, e);
    }
    CutKeys(w, v, b[s][k]);
  }

  lemma UnlinkDistinct(b: Buckets, s: nat, k: nat, c: Buckets)
    requires Distinct(b) && s < |b| && k < |b[s]| && c == b[s := b[s][..k] + b[s][k + 1..]]
    ensures Distinct(c) && (forall e: nat :: e in b[s] <==> e == b[s][k] || e in c[s])
  {
    assert NoDup(c[s]);
  }

  lemma CutKeys(w: Mem, v: Mem, id: nat)
    requires id in w.entries && Cut(w, v, id)
    ensures |v.slots| == |w.slots| && v.entries.Keys == w.entries.Keys
  {
  }

  lemma UnlinkUnplaced(w: Mem, v: Mem, b: Buckets, s: nat, k: nat, c: Buckets, open: nat, e: nat)
    requires Ring(w, b, open) && s < NUM_SLOTS && k < |b[s]| && c == b[s := b[s][..k] + b[s][k + 1..]]
    requires Near(w, b, s, b[s][k], open) && Cut(w, v, b[s][k]) && e in v.entries && !Placed(c, e)
    ensures v.entries[e].prev == v.entries[e].next == Nil
  {
    UnlinkDistinct(b, s, k, c);
    if e != b[s][k] {
      assert forall q :: 0 <= q < |b| && e in b[q] ==> e in c[q];
      assert !Placed(b, e) && e !in b[s];
    }
  }

  lemma UnlinkOther(w: Mem, v: Mem, b: Buckets, s: nat, id: nat, c: Buckets, q: nat, open: nat)
    requires Ring(w, b, open) && s < NUM_SLOTS && q < NUM_SLOTS && q != s && id in b[s]
    requires |c| == NUM_SLOTS && c[q] == b[q]
    requires Near(w, b, s, id, open) && Cut(w, v, id)
    ensures Linked(v, c, q, open)
  {
    assert Linked(w, b, q, open);
    assert forall e :: e in b[q] ==> e !in b[s] && e in w.entries;
    LinkedFrame(w, v, b, c, q, open);
  }

  lemma ForgetRing(w: Mem, b: Buckets, id: nat, open: nat)
    requires Ring(w, b, open) && !Placed(b, id)
    ensures Ring(w.(entries := w.entries - {id}), b, open)
  {
    var v := w.(entries := w.entries - {id});
    forall s: nat | s < NUM_SLOTS ensures Linked(v, b, s, open) {
      assert Linked(w, b, s, open);
      LinkedFrame(w, v, b, b, s, open);
    }
  }

  lemma AddRing(w: Mem, b: Buckets, id: nat, e: TimerEntry, open: nat)
    requires Ring(w, b, open) && id !in w.entries && e.prev == e.next == Nil
    ensures !Placed(b, id) && Ring(w.(entries := w.entries[id := e]), b, open)
  {
    var v := w.(entries := w.entries[id := e]);
    forall s: nat | s < NUM_SLOTS ensures Linked(v, b, s, open) {
      assert Linked(w, b, s, open);
      LinkedFrame(w, v, b, b, s, open);
    }
  }

  // ---- one tick: open the bucket, visit its entries from the front, close it ----

  lemma OpenRing(w: Mem, b: Buckets, s: nat)
    requires Ring(w, b, NONE) && s < NUM_SLOTS
    ensures Ring(w, b, s)
    ensures w.slots[Before(s)].next == Head(b[s], Slot(s))
  {
    assert Linked(w, b, s, NONE);
    SegmentEnds(w, Slot(Before(s)), b[s], Slot(s));
    forall r: nat | r < NUM_SLOTS ensures Linked(w, b, r, s) { assert Linked(w, b, r, NONE); }
  }

  lemma VisitRing(w: Mem, b: Buckets, open: nat)
    requires Ring(w, b, open) && open < NUM_SLOTS && b[open] != []
    ensures var e := b[open][0];
      && e in w.entries && w.entries[e].next == Head(b[open][1..], Slot(open))
      && !Placed(b[open := b[open][1..]], e)
      && Ring(Detach(w, e), b[open := b[open][1..]], open)
  {
    var e, rest := b[open][0], b[open][1..];
    var v, c := Detach(w, e), b[open := rest];
    assert Linked(w, b, open, open);
    SegmentEnds(w, Entry(e), rest, Slot(open));
    assert e in b[open] && e !in rest;
    forall s: nat | s < NUM_SLOTS ensures Linked(v, c, s, open) {
      assert Linked(w, b, s, open);
      if s != open {
        LinkedFrame(w, v, b, c, s, open);
      } else if rest != [] {
        SegmentSplit(w, Entry(e), [], rest[0], rest[1..], Slot(open));
        assert [] + [rest[0]] + rest[1..] == rest;
        SegmentFrame(w, v, Entry(rest[0]), rest[1..], Slot(open));
      }
    }
    forall id: nat | id in v.entries && !Placed(c, id) ensures v.entries[id].prev == v.entries[id].next == Nil {
      assert id != e ==> forall q :: 0 <= q < |b| && id in b[q] ==> id in c[q];
    }
  }

  lemma CloseRing(w: Mem, b: Buckets, open: nat)
    requires Ring(w, b, open) && open < NUM_SLOTS && b[open] == []
    ensures Ring(Join(w, Slot(Before(open)), Slot(open)), b, NONE)
  {
    var v := Join(w, Slot(Before(open)), Slot(open));
    forall s: nat | s < NUM_SLOTS ensures Linked(v, b, s, NONE) {
      assert Linked(w, b, s, open);
      if s != open { SegmentFrame(w, v, Slot(Before(s)), b[s], Slot(s)); }
    }
  }

  // ---- entries put into the bucket that is being drained ----

  // The slot of the bucket that has been drained names an entry that is in no bucket: the one visited last, whose index
  // may be that of the entry `id` which is to be put in.
  ghost predicate LastGone(w: Mem, b: Buckets, s: nat, id: nat) {
    && s < |w.slots| && w.slots[s].prev.Entry? && (w.slots[s].prev.id in w.entries || w.slots[s].prev.id == id)
    && !Placed(b, w.slots[s].prev.id)
  }

  // Entry `id` is in no bucket, but its `prev` is not Nil: no tick will ever come to it, and it never counts as
  // expired.
  ghost predicate Lost(w: Mem, b: Buckets, id: nat) {
    id in w.entries && !Placed(b, id) && w.entries[id].prev.Entry?
  }

  ghost predicate AllLinked(w: Mem, b: Buckets, open: nat) {
    |w.slots| == |b| == NUM_SLOTS && forall r: nat :: r < NUM_SLOTS ==> Linked(w, b, r, open)
  }

  // Put in when nothing of the bucket is left to visit, an entry is lost: slot `s` still names the entry visited last,
  // which may be the new entry itself (a timer that `tick` puts back, or one that takes over the slab index of a timer
  // just dropped), and nothing leads to either of them from the slot before.
  lemma LostEntry(w: Mem, b: Buckets, s: nat, id: nat)
    requires Ring(w, b, s) && s < NUM_SLOTS && b[s] == [] && id in w.entries && !Placed(b, id) && LastGone(w, b, s, id)
    ensures Lost(LinkBefore(w, s, id), b, id) && AllLinked(LinkBefore(w, s, id), b, s)
  {
    var v := LinkBefore(w, s, id);
    forall r: nat | r < NUM_SLOTS ensures Linked(v, b, r, s) {
      assert Linked(w, b, r, s);
      if r != s { LinkedFrame(w, v, b, b, r, s); }
    }
  }

  // Closing the bucket joins its two slots, and leaves the lost entry behind.
  lemma CloseLost(w: Mem, b: Buckets, s: nat, id: nat)
    requires AllLinked(w, b, s) && s < NUM_SLOTS && b[s] == [] && Lost(w, b, id)
    ensures AllLinked(Join(w, Slot(Before(s)), Slot(s)), b, NONE) && Lost(Join(w, Slot(Before(s)), Slot(s)), b, id)
  {
    var v := Join(w, Slot(Before(s)), Slot(s));
    forall r: nat | r < NUM_SLOTS ensures Linked(v, b, r, NONE) {
      assert Linked(w, b, r, s);
      if r != s {
        SegmentMembers(w, Slot(Before(r)), b[r], Slot(r));
        SegmentFrame(w, v, Slot(Before(r)), b[r], Slot(r));
      }
    }
  }

  // After the last entry of the bucket has been visited, its slot names that entry.
  lemma LastVisited(w: Mem, b: Buckets, s: nat)
    requires Ring(w, b, s) && s < NUM_SLOTS && |b[s]| == 1
    ensures b[s][0] in w.entries && w.slots[s].prev == Entry(b[s][0]) && LastGone(w, b[s := []], s, b[s][0])
  {
    assert Linked(w, b, s, s);
    SegmentEnds(w, Entry(b[s][0]), [], Slot(s));
    assert b[s][0] in b[s];
  }

  // Put in while entries of the open bucket are still to be visited, an entry joins them: the same tick comes to
  // it, whatever its duration.
  lemma EarlyEntry(w: Mem, b: Buckets, s: nat, id: nat)
    requires Ring(w, b, s) && s < NUM_SLOTS && b[s] != [] && id in w.entries && !Placed(b, id)
    ensures Has(w, w.slots[s].prev)
    ensures Ring(LinkBefore(w, s, id), b[s := b[s] + [id]], s)
  {
    assert Linked(w, b, s, s);
    var x, ids := Entry(b[s][0]), b[s][1..];
    assert b[s][0] in b[s] && id !in b[s];
    SegmentEnds(w, x, ids, Slot(s));
    SegmentMembers(w, x, ids, Slot(s));
    var v, c := LinkBefore(w, s, id), b[s := b[s] + [id]];
    assert w.slots[s].prev.Entry? && w.slots[s].prev.id in b[s];
    SegmentRetarget(w, v, x, ids, Slot(s), Entry(id));
    SegmentSplit(v, x, ids, id, [], Slot(s));
    assert c[s][1..] == ids + [id] + [];
    EarlyOthers(w, v, b, c, s, id);
  }

  lemma EarlyOthers(w: Mem, v: Mem, b: Buckets, c: Buckets, s: nat, id: nat)
    requires Ring(w, b, s) && s < NUM_SLOTS && b[s] != [] && id in w.entries && !Placed(b, id)
    requires w.slots[s].prev.Entry? && w.slots[s].prev.id in b[s]
    requires v == LinkBefore(w, s, id) && c == b[s := b[s] + [id]] && Linked(v, c, s, s)
    ensures Ring(v, c, s)
  {
    forall r: nat | r < NUM_SLOTS ensures Linked(v, c, r, s) {
      assert Linked(w, b, r, s);
      if r != s { LinkedFrame(w, v, b, c, r, s); }
    }
    forall e: nat | e in v.entries && !Placed(c, e) ensures v.entries[e].prev == v.entries[e].next == Nil {
      assert id in c[s];
      assert forall r :: 0 <= r < |b| && e in b[r] ==> e in c[r];
    }
  }
}
