// src/buf/codec/u8s.rs and src/buf/mod.rs: vectors that go into a buffer as they are, without a copy.
module U8sVecs {
  import opened Flats
  import opened Blocks
  import opened ByteBufs
  import opened U8s

  const COPIED_BELOW: nat := 6 * 1024
  const KEPT_ROOM: nat := 512

  // ---- append_bytes ----

  lemma BehindAll(cs: seq<seq<byte>>, ds: seq<seq<byte>>, v: seq<byte>, i: nat)
    requires i <= |cs| && (ds == cs + [v] || ds == cs + [v, []])
    ensures From(ds, i) == From(cs, i) + v
    ensures ReadAway(ds, i) <==> ReadAway(cs, i)
  {
    FromFew(v, []);
    FromMore(cs, ds[|cs|..], i);
    assert ds == cs + ds[|cs|..];
    assert forall k :: 0 <= k < |cs| ==> ds[k] == cs[k];
  }

  lemma DividedBehind(cs: seq<seq<byte>>, v: seq<byte>)
    requires cs != []
    ensures var k := |cs| - 1;
      Inserted(Divided(cs, k, cs[k][..|cs[k]|], cs[k][|cs[k]|..]), k + 1, v) == cs + [v, []]
  {
    var k := |cs| - 1;
    assert cs[k][..|cs[k]|] == cs[k] && cs[k][|cs[k]|..] == [];
    assert Divided(cs, k, cs[k], []) == cs + [[]];
  }

  // ByteBuf::append_bytes. A last block with room for more than the vector's spare room goes on behind the vector.
  method AppendWhole(buf: ByteBuf, bytes: array<byte>, len: nat, ghost o: View)
    requires buf.Valid() && Elsewhere(o, buf.regions) && len <= bytes.Length
    requires bytes !in buf.Footprint() && bytes !in Mems(o.rs)
    modifies buf`blocks, buf`regions, buf`chunks
    ensures buf.Valid() && Elsewhere(o, buf.regions)
    ensures buf.Whole() == old(buf.Whole()) + bytes[..len]
    ensures buf.Contents() == old(buf.Contents()) + bytes[..len] && buf.Tidy() == old(buf.Tidy())
    ensures buf.Footprint() == old(buf.Footprint()) + {bytes}
  {
    var k := |buf.blocks| - 1;
    ghost var cs, v := buf.chunks, bytes[..len];
    if k >= 0 && buf.blocks[k].Appendable() >= bytes.Length - len + KEPT_ROOM {
      DividedBehind(cs, v);
      buf.Divide(k, buf.blocks[k].Len(), o);
      buf.InsertVec(k + 1, bytes, len, o);
    } else {
      buf.InsertVec(k + 1, bytes, len, o);
    }
    BehindAll(cs, buf.chunks, v, 0);
    BehindAll(cs, buf.chunks, v, buf.idx);
  }

  // Unlike bytes that are copied, a vector that goes in as it is can never be hidden from a reader.
  method AppendVec(buf: ByteBuf, bytes: array<byte>, len: nat, ghost o: View) returns (n: nat)
    requires buf.Valid() && buf.growth > 0 && Elsewhere(o, buf.regions) && len <= bytes.Length
    requires bytes !in buf.Footprint() && bytes !in Mems(o.rs)
    modifies buf`blocks, buf`regions, buf`chunks, buf.Footprint()
    ensures buf.Valid() && Elsewhere(o, buf.regions) && n == len
    ensures buf.Whole() == old(buf.Whole()) + old(bytes[..len])
    ensures old(Reachable(buf)) || len >= COPIED_BELOW ==>
      buf.Contents() == old(buf.Contents()) + old(bytes[..len]) && buf.Tidy() == old(buf.Tidy())
    ensures !old(Reachable(buf)) && old(buf.Tidy()) ==>
      (buf.Tidy() <==> len >= COPIED_BELOW || len == 0 || old(Room(buf)) == 0)
  {
    if len < COPIED_BELOW {
      n := Append(buf, bytes[..len], o);
    } else {
      AppendWhole(buf, bytes, len, o);
      n := len;
    }
  }

  // ---- prepend_bytes ----

  lemma InFront(cs: seq<seq<byte>>, ds: seq<seq<byte>>, v: seq<byte>, idx: nat)
    requires (ds == [v] + cs || (ds == [[], v] + cs && cs != [])) && idx <= |cs|
    ensures Flat(ds) == v + Flat(cs)
    ensures ReadAway(cs, idx) && v != [] ==> (ReadAway(ds, idx) <==> idx == 0 || (idx == 1 && ds == [[], v] + cs))
  {
    var d := |ds| - |cs|;
    FromShift(ds, cs, d, 0);
    assert ds[d - 1] == v;
    if d == 2 { assert ds[0] == [] && From(ds, 0) == [] + From(ds, 1); }
  }

  lemma DividedInFront(cs: seq<seq<byte>>, v: seq<byte>)
    requires cs != []
    ensures Inserted(Divided(cs, 0, cs[0][..0], cs[0][0..]), 1, v) == [[], v] + cs
  {
  }

  // The room in front of the first block is kept, in a block of its own in front of the vector.
  method PutBehindRoom(buf: ByteBuf, bytes: array<byte>, len: nat, ghost o: View)
    requires buf.Valid() && Elsewhere(o, buf.regions) && len <= bytes.Length && buf.blocks != []
    requires bytes !in buf.Footprint() && bytes !in Mems(o.rs)
    modifies buf`blocks, buf`regions, buf`chunks
    ensures buf.Valid() && Elsewhere(o, buf.regions)
    ensures buf.chunks == [[], bytes[..len]] + old(buf.chunks) && |buf.blocks| == |old(buf.blocks)| + 2
    ensures buf.Footprint() == old(buf.Footprint()) + {bytes}
  {
    DividedInFront(buf.chunks, bytes[..len]);
    buf.Divide(0, 0, o);
    buf.InsertVec(1, bytes, len, o);
  }

  // ByteBuf::prepend_bytes. A first block with enough room in front keeps it, in front of the vector. Of two new
  // blocks in front of block 1, one is read; otherwise a reader that has gone on from block 0 gets nothing.
  method PrependWhole(buf: ByteBuf, bytes: array<byte>, len: nat, ghost o: View)
    requires buf.Valid() && Elsewhere(o, buf.regions) && 0 < len <= bytes.Length
    requires bytes !in buf.Footprint() && bytes !in Mems(o.rs)
    modifies buf`blocks, buf`regions, buf`chunks
    ensures buf.Valid() && Elsewhere(o, buf.regions)
    ensures buf.Whole() == bytes[..len] + old(buf.Whole())
    ensures old(buf.Tidy()) ==> (buf.Tidy() <==>
      buf.idx == 0 || (buf.idx == 1 && old(buf.blocks[0].readPos) >= KEPT_ROOM))
    ensures buf.Footprint() == old(buf.Footprint()) + {bytes}
  {
    hide AllApart, From, Elsewhere, BothApart, ReadAway;
    ghost var cs, v := buf.chunks, bytes[..len];
    assert v != [];
    if buf.blocks != [] && buf.blocks[0].Prependable() >= KEPT_ROOM {
      PutBehindRoom(buf, bytes, len, o);
    } else {
      buf.InsertVec(0, bytes, len, o);
    }
    InFront(cs, buf.chunks, v, buf.idx);
  }

  method PrependVec(buf: ByteBuf, bytes: array<byte>, len: nat, ghost o: View) returns (n: nat)
    requires buf.Valid() && buf.growth > 0 && Elsewhere(o, buf.regions) && len <= bytes.Length
    requires bytes !in buf.Footprint() && bytes !in Mems(o.rs)
    modifies buf`blocks, buf`regions, buf`chunks, buf.Footprint()
    ensures buf.Valid() && Elsewhere(o, buf.regions) && n == len
    ensures buf.Whole() == old(bytes[..len]) + old(buf.Whole())
    ensures old(buf.Tidy()) ==> (buf.Tidy() <==>
      buf.idx == 0 || len == 0 || (len >= COPIED_BELOW && buf.idx == 1 && old(buf.blocks[0].readPos) >= KEPT_ROOM))
  {
    if len < COPIED_BELOW {
      n := Prepend(buf, bytes[..len], o);
    } else {
      PrependWhole(buf, bytes, len, o);
      n := len;
    }
  }

  // A vector of one byte is prepended, and there is nothing to be read.
  method PrependVecHides(x: byte) returns (buf: ByteBuf)
    ensures buf.Valid() && buf.Whole() == [x] && buf.Contents() == []
  {
    hide Elsewhere;
    buf := ReadUpByte(1);
    NothingElse(buf.regions);
    var bytes := new byte[1](_ => x);
    var n := PrependVec(buf, bytes, 1, View([], [], []));
    assert [x] + [] == [x];
    HiddenByte(buf, x);
  }

  // ---- buffers on one allocation ----

  lemma WithinMems(a: seq<Region>, b: seq<Region>)
    requires AllWithin(a, b)
    ensures Mems(a) <= Mems(b)
  {
    forall m | m in Mems(a) ensures m in Mems(b) {
      var k :| 0 <= k < |a| && a[k].mem == m;
      assert WithinSome(a[k], b);
    }
  }

  lemma CutIs(c: seq<byte>, l: seq<byte>, r: seq<byte>)
    requires c == l + r
    ensures c[..|l|] == l && c[|l|..] == r
  {
  }

  // A buffer is cut, and the tail, which goes on in the same allocation, is written over and added to at both
  // ends: the head has not changed, and neither has the tail where it was not written to.
  method WriteTail(buf: ByteBuf, at: nat, index: nat, v: seq<byte>, front: seq<byte>, back: seq<byte>)
    returns (tail: ByteBuf, r: Got<nat>, ghost mid: seq<byte>)
    requires buf.Valid() && buf.growth > 0 && buf.idx < |buf.blocks| && at <= |buf.Contents()|
    modifies buf`blocks, buf`regions, buf`chunks, buf.Footprint()
    ensures buf.Valid() && tail.Valid() && fresh(tail) && BothApart(buf.regions, tail.regions)
    ensures buf.Contents() == old(buf.Contents())[..at]
    ensures tail.Contents() == front + (mid + back)
    ensures if r.Panic? then mid == old(buf.Contents())[at..] else Replaced(old(buf.Contents())[at..], mid, index, v)
  {
    var cut := buf.SplitOff(at);
    tail := cut.value;
    CutIs(old(buf.Contents()), buf.Contents(), tail.Contents());
    WithinMems(tail.regions, old(buf.regions));
    ghost var o := View(buf.blocks, buf.regions, buf.chunks);
    r := Set(tail, index, v, o);
    mid := tail.Contents();
    var n := Append(tail, back, o);
    n := Prepend(tail, front, o);
  }
}
