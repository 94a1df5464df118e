// The shape of the whole list: one cycle through all slots in index order, meeting every linked timer once.
module WheelTour {
  import opened Slabs
  import opened WheelLinks

  function Tokens(ids: seq<nat>): (r: seq<Token>)
    ensures |r| == |ids| && forall k :: 0 <= k < |ids| ==> r[k] == Entry(ids[k])
  {
    seq(|ids|, k requires 0 <= k < |ids| => Entry(ids[k]))
  }

  // What a walk by `next` meets from slot i up to, and without, slot 0.
  function Tour(b: Buckets, i: nat): (r: seq<Token>)
    requires i < |b| == NUM_SLOTS
    ensures r != [] && r[0] == Slot(i)
    decreases NUM_SLOTS - i
  {
    [Slot(i)] + Tokens(b[After(i)]) + if i + 1 == NUM_SLOTS then [] else Tour(b, i + 1)
  }

  // Following `next` n times.
  function Walk(w: Mem, t: Token, n: nat): (r: Token) {
    if n == 0 then t else Next(w, Walk(w, t, n - 1))
  }

  // The n-th token of the path and the one after it.
  ghost predicate Hop(w: Mem, path: seq<Token>, y: Token, n: nat)
    requires n < |path|
  {
    Adjacent(w, path[n], if n + 1 < |path| then path[n + 1] else y)
  }

  ghost predicate Path(w: Mem, path: seq<Token>, y: Token) {
    forall n: nat {:trigger Hop(w, path, y, n)} :: n < |path| ==> Hop(w, path, y, n)
  }

  lemma PathConcat(w: Mem, p: seq<Token>, q: seq<Token>, y: Token)
    requires q != [] && Path(w, p, q[0]) && Path(w, q, y)
    ensures Path(w, p + q, y)
  {
    forall n: nat | n < |p + q| ensures Hop(w, p + q, y, n) {
      if n < |p| { assert Hop(w, p, q[0], n); } else { assert Hop(w, q, y, n - |p|); }
    }
  }

  lemma {:induction false} SegmentPath(w: Mem, x: Token, ids: seq<nat>, y: Token)
    requires Segment(w, x, ids, y)
    ensures Path(w, [x] + Tokens(ids), y)
    decreases |ids|
  {
    if ids == [] {
      forall n: nat | n < 1 ensures Hop(w, [x] + Tokens(ids), y, n) { }
    } else {
      var q := [Entry(ids[0])] + Tokens(ids[1..]);
      SegmentPath(w, Entry(ids[0]), ids[1..], y);
      forall n: nat | n < 1 ensures Hop(w, [x], q[0], n) { }
      PathConcat(w, [x], q, y);
      assert [x] + Tokens(ids) == [x] + q;
    }
  }

  lemma {:induction false} TourPath(w: Mem, b: Buckets, i: nat)
    requires Ring(w, b, NONE) && i < NUM_SLOTS
    ensures Path(w, Tour(b, i), Slot(0))
    decreases NUM_SLOTS - i
  {
    var s := After(i);
    assert Linked(w, b, s, NONE);
    SegmentPath(w, Slot(i), b[s], Slot(s));
    if i + 1 < NUM_SLOTS {
      TourPath(w, b, i + 1);
      PathConcat(w, [Slot(i)] + Tokens(b[s]), Tour(b, i + 1), Slot(0));
    } else {
      assert Tour(b, i) == [Slot(i)] + Tokens(b[s]);
    }
  }

  lemma TokensMember(ids: seq<nat>, t: Token)
    ensures t in Tokens(ids) <==> t.Entry? && t.id in ids
  {
    if t.Entry? && t.id in ids {
      var k :| 0 <= k < |ids| && ids[k] == t.id;
      assert Tokens(ids)[k] == t;
    }
  }

  // The buckets a walk from slot i goes through: those after it, and the one before slot 0.
  ghost predicate Ahead(b: Buckets, i: nat, id: nat)
    requires |b| == NUM_SLOTS
  {
    exists s: nat :: (i < s < NUM_SLOTS || s == 0) && id in b[s]
  }

  ghost predicate OnTour(b: Buckets, i: nat, t: Token)
    requires |b| == NUM_SLOTS
  {
    match t
    case Slot(j) => i <= j < NUM_SLOTS
    case Entry(id) => Ahead(b, i, id)
    case Nil => false
  }

  lemma {:induction false} TourMembers(b: Buckets, i: nat, t: Token)
    requires i < |b| == NUM_SLOTS
    ensures t in Tour(b, i) <==> OnTour(b, i, t)
    decreases NUM_SLOTS - i
  {
    var rest := i + 1 < NUM_SLOTS && OnTour(b, i + 1, t);
    if i + 1 < NUM_SLOTS { TourMembers(b, i + 1, t); }
    calc {
      t in Tour(b, i);
      { TourStep(b, i, t); }
      t == Slot(i) || t in Tokens(b[After(i)]) || rest;
      { OnTourStep(b, i, t, rest); }
      OnTour(b, i, t);
    }
  }

  lemma OnTourStep(b: Buckets, i: nat, t: Token, rest: bool)
    requires i < |b| == NUM_SLOTS
    requires rest <==> i + 1 < NUM_SLOTS && OnTour(b, i + 1, t)
    ensures OnTour(b, i, t) <==> t == Slot(i) || t in Tokens(b[After(i)]) || rest
  {
    TokensMember(b[After(i)], t);
    if t.Entry? { AheadStep(b, i, t.id); }
  }

  lemma TourStep(b: Buckets, i: nat, t: Token)
    requires i < |b| == NUM_SLOTS
    ensures t in Tour(b, i) <==>
      t == Slot(i) || t in Tokens(b[After(i)]) || (i + 1 < NUM_SLOTS && t in Tour(b, i + 1))
  {
  }

  lemma AheadStep(b: Buckets, i: nat, id: nat)
    requires i < |b| == NUM_SLOTS
    ensures Ahead(b, i, id) <==> id in b[After(i)] || (i + 1 < NUM_SLOTS && Ahead(b, i + 1, id))
  {
    if id in b[After(i)] { assert Ahead(b, i, id); }
  }

  ghost predicate NoRepeat(p: seq<Token>) {
    forall j, k :: 0 <= j < k < |p| ==> p[j] != p[k]
  }

  lemma NoRepeatConcat(p: seq<Token>, q: seq<Token>)
    requires NoRepeat(p) && NoRepeat(q) && forall t :: t in p ==> t !in q
    ensures NoRepeat(p + q)
  {
    forall j, k | 0 <= j < k < |p + q| ensures (p + q)[j] != (p + q)[k] {
      if j < |p| <= k { assert p[j] in p && q[k - |p|] in q; }
    }
  }

  lemma {:induction false} TourNoDup(b: Buckets, i: nat)
    requires i < |b| == NUM_SLOTS && Distinct(b)
    ensures NoRepeat(Tour(b, i))
    decreases NUM_SLOTS - i
  {
    var s := After(i);
    var first := [Slot(i)] + Tokens(b[s]);
    assert NoRepeat(first);
    if i + 1 == NUM_SLOTS {
      assert Tour(b, i) == first;
    } else {
      TourNoDup(b, i + 1);
      forall t | t in first ensures t !in Tour(b, i + 1) {
        TokensMember(b[s], t);
        TourMembers(b, i + 1, t);
      }
      NoRepeatConcat(first, Tour(b, i + 1));
    }
  }

  lemma {:induction false} WalkPath(w: Mem, path: seq<Token>, y: Token, n: nat)
    requires path != [] && Path(w, path, y) && n <= |path|
    ensures Walk(w, path[0], n) == if n < |path| then path[n] else y
  {
    if n > 0 {
      WalkPath(w, path, y, n - 1);
      assert Hop(w, path, y, n - 1);
    }
  }

  // Following `next` from slot 0 one meets the tour of the buckets and is back at slot 0, and `prev` is the
  // inverse of `next` all along.
  lemma OneCycle(w: Mem, b: Buckets)
    requires Ring(w, b, NONE)
    ensures forall n: nat :: n < |Tour(b, 0)| ==> Walk(w, Slot(0), n) == Tour(b, 0)[n]
    ensures Walk(w, Slot(0), |Tour(b, 0)|) == Slot(0)
    ensures forall n: nat :: n < |Tour(b, 0)| ==> Prev(w, Walk(w, Slot(0), n + 1)) == Walk(w, Slot(0), n)
  {
    TourPath(w, b, 0);
    var tour := Tour(b, 0);
    forall n: nat | n < |tour|
      ensures Walk(w, Slot(0), n) == tour[n] && Prev(w, Walk(w, Slot(0), n + 1)) == Walk(w, Slot(0), n)
    {
      WalkPath(w, tour, Slot(0), n);
      WalkPath(w, tour, Slot(0), n + 1);
      assert Hop(w, tour, Slot(0), n);
    }
    WalkPath(w, tour, Slot(0), |tour|);
  }

  // The tour repeats nothing, and holds every slot and exactly the timers whose `prev` is not Nil.
  lemma OneCycleMembers(w: Mem, b: Buckets)
    requires Ring(w, b, NONE)
    ensures NoRepeat(Tour(b, 0))
    ensures forall i: nat :: Slot(i) in Tour(b, 0) <==> i < NUM_SLOTS
    ensures forall id: nat :: Entry(id) in Tour(b, 0) <==> id in w.entries && w.entries[id].prev != Nil
    ensures Nil !in Tour(b, 0)
  {
    hide Tour, Ring, Ahead, Placed;
    RingIsDistinct(w, b);
    TourNoDup(b, 0);
    TourMembers(b, 0, Nil);
    forall i: nat ensures Slot(i) in Tour(b, 0) <==> i < NUM_SLOTS { TourMembers(b, 0, Slot(i)); }
    forall id: nat ensures Entry(id) in Tour(b, 0) <==> id in w.entries && w.entries[id].prev != Nil {
      TourMembers(b, 0, Entry(id));
      LinkedIffAhead(w, b, id);
    }
  }

  lemma RingIsDistinct(w: Mem, b: Buckets)
    requires Ring(w, b, NONE)
    ensures |b| == NUM_SLOTS && Distinct(b)
  {
  }

  lemma LinkedIffAhead(w: Mem, b: Buckets, id: nat)
    requires Ring(w, b, NONE)
    ensures |b| == NUM_SLOTS && (Ahead(b, 0, id) <==> id in w.entries && w.entries[id].prev != Nil)
  {
    assert Ahead(b, 0, id) <==> Placed(b, id);
    if id in w.entries { PlacedIffLinked(w, b, id); }
  }
}
