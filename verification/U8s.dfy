// src/buf/codec/u8s.rs: byte strings read from, written over and added to a buffer.
module U8s {
  import opened Bits
  import opened Slabs
  import opened Flats
  import opened Blocks
  import opened ByteBufs

  // `locate_idx(...).expect(...)` panics when the position lies outside the buffer.
  datatype Got<+T> = Panic | OutOfBounds | Got(value: T)

  // ReadIter::next: the first block that still holds a byte.
  method NextBlock(buf: ByteBuf) returns (more: bool)
    requires buf.Valid()
    modifies buf`idx
    ensures buf.Valid() && (old(buf.Tidy()) ==> buf.Tidy()) && buf.Contents() == old(buf.Contents())
    ensures if more then buf.idx < |buf.blocks| && buf.blocks[buf.idx].Len() > 0
      else buf.idx == |buf.blocks| && buf.Contents() == []
  {
    while buf.idx < |buf.blocks|
      invariant buf.Valid() && (old(buf.Tidy()) ==> buf.Tidy()) && buf.Contents() == old(buf.Contents())
      decreases |buf.blocks| - buf.idx
    {
      if !buf.blocks[buf.idx].IsEmpty() { return true; }
      buf.Advance();
    }
    more := false;
  }

  // Underflow reads up what there is.
  method ReadExact(buf: ByteBuf, n: nat) returns (r: Option<seq<byte>>)
    requires buf.Valid()
    modifies buf`idx, buf`blocks, buf`chunks
    ensures buf.Valid() && (old(buf.Tidy()) ==> buf.Tidy())
    ensures r.Some? <==> n <= |old(buf.Contents())|
    ensures r.Some? ==> old(buf.Contents()) == r.value + buf.Contents() && |r.value| == n
    ensures r.None? ==> buf.Contents() == []
  {
    hide OnlyRead, AllApart, From;
    if n == 0 { return Some([]); }
    var read: seq<byte> := [];
    var rest := n;
    while true
      invariant buf.Valid() && (old(buf.Tidy()) ==> buf.Tidy())
      invariant old(buf.Contents()) == read + buf.Contents() && |read| + rest == n && rest > 0
      decreases rest
    {
      var more := NextBlock(buf);
      if !more { return None; }
      var len := buf.blocks[buf.idx].Len();
      var bytes := buf.Consume(if len >= rest then rest else len);
      Prefix(read, bytes, buf.Contents());
      read := read + bytes;
      if len >= rest { return Some(read); }
      rest := rest - len;
    }
  }

  // codec::u8::read
  method ReadByte(buf: ByteBuf) returns (r: Option<byte>)
    requires buf.Valid()
    modifies buf`idx, buf`blocks, buf`chunks
    ensures buf.Valid() && (old(buf.Tidy()) ==> buf.Tidy())
    ensures r.Some? <==> old(buf.Contents()) != []
    ensures r.Some? ==> old(buf.Contents()) == [r.value] + buf.Contents() && buf.idx < |buf.blocks|
    ensures r.None? ==> buf.Contents() == []
  {
    var more := NextBlock(buf);
    if !more { return None; }
    var bytes := buf.Consume(1);
    return Some(bytes[0]);
  }

  // What is left from position `pos` of piece k on.
  ghost function Rest(cs: seq<seq<byte>>, k: nat, pos: nat): (r: seq<byte>)
    requires k < |cs| ==> pos <= |cs[k]|
  {
    if k < |cs| then cs[k][pos..] + From(cs, k + 1) else []
  }

  // The contents in front of a position and from it on.
  lemma RestAt(cs: seq<seq<byte>>, idx: nat, index: nat, i: nat, off: nat)
    requires Located(cs, idx, index, i, off)
    ensures index <= |From(cs, idx)|
    ensures From(cs, idx)[..index] == Between(cs, idx, i) + cs[i][..off]
    ensures From(cs, idx)[index..] == Rest(cs, i, off)
  {
    Around(cs, idx, i, off);
  }

  lemma PrefixIs(a: seq<byte>, b: seq<byte>, n: nat)
    requires n <= |b|
    ensures (a + b)[..|a| + n] == a + b[..n]
  {
  }

  // One step of the walk over the blocks: `bytes` is what block k gives.
  lemma RestStep(cs: seq<seq<byte>>, k: nat, pos: nat, bytes: seq<byte>, read: seq<byte>)
    requires k < |cs| && pos <= |cs[k]| && bytes == cs[k][pos..]
    ensures read + Rest(cs, k, pos) == (read + bytes) + Rest(cs, k + 1, 0)
  {
    assert Rest(cs, k + 1, 0) == From(cs, k + 1);
    Prefix(read, bytes, From(cs, k + 1));
  }

  lemma RestLast(cs: seq<seq<byte>>, k: nat, pos: nat, bytes: seq<byte>, read: seq<byte>)
    requires k < |cs| && pos + |bytes| <= |cs[k]| && bytes == cs[k][pos..][..|bytes|]
    ensures |read + bytes| <= |read + Rest(cs, k, pos)|
    ensures (read + Rest(cs, k, pos))[..|read + bytes|] == read + bytes
  {
    PrefixIs(read, Rest(cs, k, pos), |bytes|);
  }

  // GetIter yields the blocks from the located one on, leaving out what is empty.
  method GetFrom(buf: ByteBuf, i: nat, off: nat, n: nat) returns (r: Option<seq<byte>>)
    requires buf.Valid() && n > 0 && i <= |buf.chunks| && (i < |buf.chunks| ==> off <= |buf.chunks[i]|)
    ensures var d := Rest(buf.chunks, i, off);
      if n <= |d| then r == Some(d[..n]) else r == None
  {
    ghost var cs, d := buf.chunks, Rest(buf.chunks, i, off);
    var read: seq<byte>, rest := [], n;
    var k: nat, pos: nat := i, off;
    assert [] + d == d;
    while k < |buf.blocks|
      invariant k <= |buf.blocks| && (k < |buf.blocks| ==> pos <= |cs[k]|)
      invariant |read| + rest == n && rest > 0
      invariant d == read + Rest(cs, k, pos)
    {
      var len := buf.blocks[k].Len() - pos;
      if len >= rest {
        var bytes := buf.BytesAt(k, pos, rest);
        RestLast(cs, k, pos, bytes, read);
        return Some(read + bytes);
      }
      var bytes := buf.BytesAt(k, pos, len);
      RestStep(cs, k, pos, bytes, read);
      read, rest := read + bytes, rest - len;
      k, pos := k + 1, 0;
    }
    r := None;
  }

  method GetExact(buf: ByteBuf, index: nat, n: nat) returns (r: Got<seq<byte>>)
    requires buf.Valid()
    ensures r.Panic? <==> !(buf.idx < |buf.blocks| && index <= |buf.Contents()|)
    ensures r.Got? <==> !r.Panic? && (n == 0 || index + n <= |buf.Contents()|)
    ensures r.Got? ==> index + n <= |buf.Contents()| && r.value == buf.Contents()[index..][..n]
  {
    var found, i, off := buf.LocateIdx(index);
    if !found { return Panic; }
    RestAt(buf.chunks, buf.idx, index, i, off);
    if n == 0 { return Got([]); }
    var v := GetFrom(buf, i, off, n);
    r := match v case None => OutOfBounds case Some(bytes) => Got(bytes);
  }

  // ---- set ----

  // What lies in front of position `pos` of piece k.
  ghost function Before(cs: seq<seq<byte>>, idx: nat, k: nat, pos: nat): (r: seq<byte>)
    requires idx <= k <= |cs| && (k < |cs| ==> pos <= |cs[k]|)
  {
    Between(cs, idx, k) + if k < |cs| then cs[k][..pos] else []
  }

  lemma BeforeAndRest(cs: seq<seq<byte>>, idx: nat, k: nat, pos: nat)
    requires idx <= k <= |cs| && (k < |cs| ==> pos <= |cs[k]|)
    ensures From(cs, idx) == Before(cs, idx, k, pos) + Rest(cs, k, pos)
  {
    if k < |cs| {
      Around(cs, idx, k, pos);
      Halves(From(cs, idx), |Before(cs, idx, k, pos)|);
    } else {
      FromAll(cs, idx);
    }
  }

  lemma Halves(c: seq<byte>, n: nat)
    requires n <= |c|
    ensures c == c[..n] + c[n..]
  {
  }

  lemma OverParts(c: seq<byte>, pos: nat, src: seq<byte>)
    requires pos + |src| <= |c|
    ensures Over(c, pos, src)[..pos + |src|] == c[..pos] + src
    ensures Over(c, pos, src)[pos + |src|..] == c[pos + |src|..]
  {
  }

  // Writing over part of piece k moves the boundary behind what was written.
  lemma OverStep(cs: seq<seq<byte>>, ds: seq<seq<byte>>, idx: nat, k: nat, pos: nat, src: seq<byte>)
    requires idx <= k < |cs| && pos + |src| <= |cs[k]| && ds == cs[k := Over(cs[k], pos, src)]
    ensures Before(ds, idx, k, pos + |src|) == Before(cs, idx, k, pos) + src
    ensures Rest(ds, k, pos + |src|) == Rest(cs, k, pos)[|src|..]
  {
    BetweenSame(cs, ds, idx, k);
    FromShift(cs, ds, k + 1, k + 1);
    OverParts(cs[k], pos, src);
    Behind(cs[k], pos, |src|, From(cs, k + 1));
  }

  lemma Behind(c: seq<byte>, pos: nat, n: nat, more: seq<byte>)
    requires pos + n <= |c|
    ensures c[pos + n..] + more == (c[pos..] + more)[n..]
  {
  }

  lemma NextPiece(cs: seq<seq<byte>>, idx: nat, k: nat)
    requires idx <= k < |cs|
    ensures Before(cs, idx, k, |cs[k]|) == Before(cs, idx, k + 1, 0)
    ensures Rest(cs, k, |cs[k]|) == Rest(cs, k + 1, 0)
  {
    assert cs[k][..|cs[k]|] == cs[k];
  }

  // The bytes from position `index` on are `v`, as far as there are any; the others have not changed.
  ghost predicate Replaced(old_: seq<byte>, new_: seq<byte>, index: nat, v: seq<byte>) {
    index <= |old_| &&
    if index + |v| <= |old_| then new_ == Over(old_, index, v) else new_ == old_[..index] + v[..|old_| - index]
  }

  lemma ReplacedBy(c: seq<byte>, d: seq<byte>, front: seq<byte>, tail: seq<byte>, v: seq<byte>, n: nat)
    requires c == front + tail && n <= |tail| && n <= |v| && d == (front + v[..n]) + tail[n..]
      && (n == |v| || n == |tail|)
    ensures Replaced(c, d, |front|, v)
  {
    assert c[..|front|] == front && c[|front| + n..] == tail[n..];
  }

  lemma SetEnd(front: seq<byte>, tail: seq<byte>, v: seq<byte>, n: nat, m: nat)
    requires n + m <= |v| && n + m <= |tail|
    ensures (front + v[..n]) + v[n..][..m] == front + v[..n + m]
    ensures tail[n..][m..] == tail[n + m..]
  {
  }

  // Part of block k, behind which the rest lies.
  method SetPart(buf: ByteBuf, k: nat, pos: nat, src: seq<byte>, ghost o: View)
    requires buf.Valid() && Elsewhere(o, buf.regions) && buf.idx <= k < |buf.blocks| && pos + |src| <= |buf.chunks[k]|
    modifies buf`blocks, buf`chunks, buf.blocks[k].mem
    ensures buf.Valid() && Elsewhere(o, buf.regions) && buf.blocks == old(buf.blocks)
    ensures |buf.chunks[k]| == |old(buf.chunks)[k]|
    ensures Before(buf.chunks, buf.idx, k, pos + |src|) == Before(old(buf.chunks), buf.idx, k, pos) + src
    ensures Rest(buf.chunks, k, pos + |src|) == Rest(old(buf.chunks), k, pos)[|src|..]
    ensures buf.Contents() == (Before(old(buf.chunks), buf.idx, k, pos) + src) + Rest(old(buf.chunks), k, pos)[|src|..]
  {
    buf.Overwrite(k, pos, src, o);
    OverStep(old(buf.chunks), buf.chunks, buf.idx, k, pos, src);
    BeforeAndRest(buf.chunks, buf.idx, k, pos + |src|);
  }

  // What lay from some position on was `tail`; its first n bytes, up to position `pos` of block k, are now those of v.
  ghost predicate SetTo(cs: seq<seq<byte>>, idx: nat, k: nat, pos: nat, front: seq<byte>, tail: seq<byte>,
    v: seq<byte>, n: nat) {
    && idx <= k <= |cs| && (k < |cs| ==> pos <= |cs[k]|) && n <= |tail| && n <= |v|
    && Before(cs, idx, k, pos) == front + v[..n] && Rest(cs, k, pos) == tail[n..]
  }

  lemma SetToEnds(cs: seq<seq<byte>>, idx: nat, k: nat, pos: nat, front: seq<byte>, tail: seq<byte>, v: seq<byte>,
    n: nat)
    requires SetTo(cs, idx, k, pos, front, tail, v, n) && k == |cs|
    ensures n == |tail| <= |v| && From(cs, idx) == (front + v[..n]) + tail[n..]
  {
    BeforeAndRest(cs, idx, k, pos);
  }

  // The rest of block k, and the end of what is to be written.
  method SetAll(buf: ByteBuf, k: nat, pos: nat, bytes: seq<byte>, ghost v: seq<byte>, ghost n: nat,
    ghost front: seq<byte>, ghost tail: seq<byte>, ghost o: View)
    requires buf.Valid() && Elsewhere(o, buf.regions) && k < |buf.blocks| && pos + |bytes| == |buf.chunks[k]|
    requires SetTo(buf.chunks, buf.idx, k, pos, front, tail, v, n) && n + |bytes| <= |v| && bytes == v[n..][..|bytes|]
    modifies buf`blocks, buf`chunks, buf.blocks[k].mem
    ensures buf.Valid() && Elsewhere(o, buf.regions) && buf.blocks == old(buf.blocks)
    ensures SetTo(buf.chunks, buf.idx, k + 1, 0, front, tail, v, n + |bytes|)
  {
    hide Elsewhere, AllApart;
    SetEnd(front, tail, v, n, |bytes|);
    SetPart(buf, k, pos, bytes, o);
    NextPiece(buf.chunks, buf.idx, k);
  }

  method SetLast(buf: ByteBuf, k: nat, pos: nat, bytes: seq<byte>, ghost v: seq<byte>, ghost n: nat,
    ghost front: seq<byte>, ghost tail: seq<byte>, ghost o: View)
    requires buf.Valid() && Elsewhere(o, buf.regions) && k < |buf.blocks|
    requires SetTo(buf.chunks, buf.idx, k, pos, front, tail, v, n) && bytes == v[n..]
      && pos + |bytes| <= |buf.chunks[k]|
    modifies buf`blocks, buf`chunks, buf.blocks[k].mem
    ensures buf.Valid() && Elsewhere(o, buf.regions) && buf.blocks == old(buf.blocks)
    ensures |v| <= |tail| && buf.Contents() == (front + v) + tail[|v|..] && n + |buf.chunks[k]| - pos <= |tail|
  {
    hide Elsewhere, AllApart;
    SetEnd(front, tail, v, n, |v| - n);
    assert v[n..][..|v| - n] == bytes && v[..n + (|v| - n)] == v;
    SetPart(buf, k, pos, bytes, o);
  }

  // What block k takes of it: the end, or as much as there is.
  method SetRound(buf: ByteBuf, k: nat, pos: nat, v: seq<byte>, n: nat, ghost front: seq<byte>,
    ghost tail: seq<byte>, ghost o: View)
    returns (last: bool, m: nat)
    requires buf.Valid() && Elsewhere(o, buf.regions) && k < |buf.blocks| && (n > 0 ==> n < |v|)
    requires SetTo(buf.chunks, buf.idx, k, pos, front, tail, v, n)
    modifies buf`blocks, buf`chunks, buf.blocks[k].mem
    ensures buf.Valid() && Elsewhere(o, buf.regions) && buf.blocks == old(buf.blocks)
    ensures last ==> m == |v| <= |tail| && tail != [] && buf.Contents() == (front + v) + tail[|v|..]
    ensures !last ==> SetTo(buf.chunks, buf.idx, k + 1, 0, front, tail, v, m) && (m > 0 ==> m < |v|)
  {
    hide Before, Rest, Elsewhere, AllApart, From, Between;
    var len := buf.blocks[k].Len() - pos;
    last := len > 0 && len >= |v| - n;
    if last {
      SetLast(buf, k, pos, v[n..], v, n, front, tail, o);
      m := |v|;
    } else {
      SetAll(buf, k, pos, v[n..][..len], v, n, front, tail, o);
      m := n + len;
    }
  }

  // SetIter yields the blocks from the located one on, leaving out what is empty. n is how much was written.
  method SetFrom(buf: ByteBuf, i: nat, off: nat, v: seq<byte>, ghost front: seq<byte>, ghost tail: seq<byte>,
    ghost o: View)
    returns (ok: bool, n: nat)
    requires buf.Valid() && Elsewhere(o, buf.regions) && i < |buf.blocks|
      && SetTo(buf.chunks, buf.idx, i, off, front, tail, v, 0)
    modifies buf`blocks, buf`chunks, buf.Footprint()
    ensures buf.Valid() && Elsewhere(o, buf.regions) && buf.blocks == old(buf.blocks)
    ensures n <= |tail| && n <= |v| && buf.Contents() == (front + v[..n]) + tail[n..]
    ensures n == if ok then |v| else |tail|
    ensures ok <==> (if v == [] then 1 else |v|) <= |tail|
  {
    hide AllApart, From, SetTo;
    n := 0;
    var k: nat, pos: nat := i, off;
    while k < |buf.blocks|
      invariant buf.Valid() && Elsewhere(o, buf.regions) && buf.blocks == old(buf.blocks)
      invariant k <= |buf.blocks| && SetTo(buf.chunks, buf.idx, k, pos, front, tail, v, n)
      invariant n > 0 ==> n < |v|
      decreases |buf.blocks| - k
    {
      ok, n := SetRound(buf, k, pos, v, n, front, tail, o);
      if ok {
        assert v[..n] == v;
        return;
      }
      k, pos := k + 1, 0;
    }
    SetToEnds(buf.chunks, buf.idx, k, pos, front, tail, v, n);
    ok := false;
  }

  // Writes over the bytes from position `index` on. If they do not suffice, they are all written over with what
  // fits, and the result is an error; it is one also for nothing to be written at the very end.
  method Set(buf: ByteBuf, index: nat, v: seq<byte>, ghost o: View) returns (r: Got<nat>)
    requires buf.Valid() && Elsewhere(o, buf.regions)
    modifies buf`blocks, buf`chunks, buf.Footprint()
    ensures buf.Valid() && Elsewhere(o, buf.regions) && buf.blocks == old(buf.blocks)
    ensures r.Panic? <==> !(buf.idx < |buf.blocks| && index <= |old(buf.Contents())|)
    ensures r.Panic? ==> buf.chunks == old(buf.chunks)
    ensures !r.Panic? ==> Replaced(old(buf.Contents()), buf.Contents(), index, v)
    ensures r.Got? ==> r.value == |v|
    ensures !r.Panic? ==> (r.Got? <==> index + (if v == [] then 1 else |v|) <= |old(buf.Contents())|)
  {
    hide AllApart, From, Replaced;
    var found, i, off := buf.LocateIdx(index);
    if !found { return Panic; }
    ghost var c, front, tail := buf.Contents(), Before(buf.chunks, buf.idx, i, off), Rest(buf.chunks, i, off);
    BeforeAndRest(buf.chunks, buf.idx, i, off);
    assert front + v[..0] == front;
    var ok, n := SetFrom(buf, i, off, v, front, tail, o);
    ReplacedBy(c, buf.Contents(), front, tail, v, n);
    r := if ok then Got(|v|) else OutOfBounds;
  }

  // ---- append and prepend ----

  // The last block is one the reader has not passed.
  predicate Reachable(buf: ByteBuf)
    reads buf
  {
    buf.idx < |buf.blocks| || buf.blocks == []
  }

  function Room(buf: ByteBuf): (r: nat)
    requires buf.blocks != [] && buf.blocks[|buf.blocks| - 1].Ok()
    reads buf
  {
    buf.blocks[|buf.blocks| - 1].Appendable()
  }

  // There is room in a block still to be read.
  ghost predicate HasRoom(buf: ByteBuf)
    reads buf
  {
    buf.idx < |buf.blocks| && buf.blocks[|buf.blocks| - 1].Ok() && Room(buf) > 0
  }

  // The last block grew by `x`: what that means for the pieces read from `idx` on.
  lemma LastGrew(cs: seq<seq<byte>>, ds: seq<seq<byte>>, idx: nat, x: seq<byte>)
    requires cs != [] && ds == cs[|cs| - 1 := cs[|cs| - 1] + x] && idx <= |cs|
    ensures Flat(ds) == Flat(cs) + x && (idx < |cs| ==> From(ds, idx) == From(cs, idx) + x)
    ensures idx < |cs| ==> (ReadAway(ds, idx) <==> ReadAway(cs, idx))
    ensures idx == |cs| && ReadAway(cs, idx) ==> (ReadAway(ds, idx) <==> x == [])
  {
    LastGrows(cs, 0, x);
    if idx < |cs| { LastGrows(cs, idx, x); }
    LastRead(cs, ds, idx, x);
  }

  lemma LastRead(cs: seq<seq<byte>>, ds: seq<seq<byte>>, idx: nat, x: seq<byte>)
    requires cs != [] && ds == cs[|cs| - 1 := cs[|cs| - 1] + x] && idx <= |cs|
    ensures idx < |cs| ==> (ReadAway(ds, idx) <==> ReadAway(cs, idx))
    ensures idx == |cs| && ReadAway(cs, idx) ==> (ReadAway(ds, idx) <==> x == [])
  {
    var k := |cs| - 1;
    assert forall j :: 0 <= j < k ==> ds[j] == cs[j];
    assert |ds[k]| == |cs[k]| + |x|;
  }

  // The same for an empty block more.
  lemma EmptyMore(cs: seq<seq<byte>>, idx: nat)
    requires idx <= |cs|
    ensures Flat(cs + [[]]) == Flat(cs) && From(cs + [[]], idx) == From(cs, idx)
    ensures ReadAway(cs + [[]], idx) <==> ReadAway(cs, idx)
  {
    FromMore(cs, [[]], 0);
    FromMore(cs, [[]], idx);
    FromFew([], []);
    assert forall k :: 0 <= k < |cs| ==> (cs + [[]])[k] == cs[k];
  }

  // One round: what fits goes into the last block, which the reader may have passed; if something is left, there
  // is a new block for it.
  method FillLast(buf: ByteBuf, src: seq<byte>, ghost o: View) returns (m: nat)
    requires buf.Valid() && buf.blocks != [] && Elsewhere(o, buf.regions)
    modifies buf`blocks, buf`chunks, buf.blocks[|buf.blocks| - 1].mem
    ensures buf.Valid() && Elsewhere(o, buf.regions) && |buf.blocks| == |old(buf.blocks)|
    ensures m == Min(|src|, old(Room(buf)))
    ensures buf.Whole() == old(buf.Whole()) + src[..m]
    ensures buf.idx < |buf.blocks| ==> buf.Contents() == old(buf.Contents()) + src[..m] && buf.Tidy() == old(buf.Tidy())
    ensures buf.idx == |buf.blocks| && old(buf.Tidy()) ==> (buf.Tidy() <==> m == 0)
  {
    m := buf.PushBack(src, o);
    LastGrew(old(buf.chunks), buf.chunks, buf.idx, src[..m]);
  }

  method NewLast(buf: ByteBuf, ghost o: View)
    requires buf.Valid() && buf.growth > 0 && Elsewhere(o, buf.regions)
    modifies buf`blocks, buf`regions, buf`chunks
    ensures buf.Valid() && Elsewhere(o, buf.regions) && HasRoom(buf)
    ensures buf.Whole() == old(buf.Whole()) && buf.Contents() == old(buf.Contents()) && buf.Tidy() == old(buf.Tidy())
    ensures fresh(buf.Footprint() - old(buf.Footprint()))
  {
    hide AllApart, BothApart, From, ReadAway;
    EmptyMore(buf.chunks, buf.idx);
    buf.AppendBlock(0, o);
  }

  lemma Split(w: seq<byte>, rest: seq<byte>, m: nat)
    requires m <= |rest|
    ensures (w + rest[..m]) + rest[m..] == w + rest
    ensures m == |rest| ==> w + rest[..m] == w + rest
  {
  }

  // One round: what fits goes into the last block, and if something is left there is a new block for it.
  method AppendRound(buf: ByteBuf, src: seq<byte>, ghost o: View) returns (m: nat, more: bool)
    requires buf.Valid() && buf.growth > 0 && Elsewhere(o, buf.regions)
    modifies buf`blocks, buf`regions, buf`chunks, buf.Footprint()
    ensures buf.Valid() && Elsewhere(o, buf.regions) && m <= |src|
    ensures fresh(buf.Footprint() - old(buf.Footprint()))
    ensures m == if old(buf.blocks) == [] then 0 else Min(|src|, old(Room(buf)))
    ensures if more then HasRoom(buf) else m == |src|
    ensures old(HasRoom(buf)) ==> m > 0 || !more
    ensures buf.Whole() == old(buf.Whole()) + src[..m]
    ensures old(Reachable(buf)) ==> buf.Contents() == old(buf.Contents()) + src[..m] && buf.Tidy() == old(buf.Tidy())
    ensures !old(Reachable(buf)) && old(buf.Tidy()) ==> (buf.Tidy() <==> m == 0)
  {
    hide AllApart, BothApart, From, ReadAway;
    m := 0;
    if buf.blocks != [] {
      m := FillLast(buf, src, o);
      if m == |src| { return m, false; }
    }
    NewLast(buf, o);
    more := true;
  }

  // The rounds after the first find a new last block.
  method AppendOn(buf: ByteBuf, v: seq<byte>, ghost o: View)
    requires buf.Valid() && Elsewhere(o, buf.regions) && buf.growth > 0
    requires HasRoom(buf)
    modifies buf`blocks, buf`regions, buf`chunks, buf.Footprint()
    ensures buf.Valid() && Elsewhere(o, buf.regions)
    ensures fresh(buf.Footprint() - old(buf.Footprint()))
    ensures buf.Whole() == old(buf.Whole()) + v && buf.Contents() == old(buf.Contents()) + v
    ensures buf.Tidy() == old(buf.Tidy())
  {
    hide AllApart, BothApart, From, ReadAway;
    ghost var whole, c, tidy := buf.Whole() + v, buf.Contents() + v, buf.Tidy();
    var rest, m, more := v, 0, true;
    while more
      invariant buf.Valid() && Elsewhere(o, buf.regions)
      invariant fresh(buf.Footprint() - old(buf.Footprint()))
      invariant more ==> HasRoom(buf)
      invariant !more ==> rest == []
      invariant buf.Whole() + rest == whole && buf.Contents() + rest == c && buf.Tidy() == tidy
      decreases |rest|, more
    {
      ghost var w, d := buf.Whole(), buf.Contents();
      m, more := AppendRound(buf, rest, o);
      Split(w, rest, m);
      Split(d, rest, m);
      rest := rest[m..];
    }
  }

  // Appended bytes go into the last block, even when all blocks have been read up and the next read starts
  // behind it. They always end up behind what all blocks hold; but a reader gets them all iff the buffer had a
  // block left to read, or none at all, or nothing fitted into the last one. Whatever the other blocks `o`, no
  // byte of theirs changes.
  method Append(buf: ByteBuf, v: seq<byte>, ghost o: View) returns (n: nat)
    requires buf.Valid() && buf.growth > 0 && Elsewhere(o, buf.regions)
    modifies buf`blocks, buf`regions, buf`chunks, buf.Footprint()
    ensures buf.Valid() && n == |v| && Elsewhere(o, buf.regions)
    ensures fresh(buf.Footprint() - old(buf.Footprint()))
    ensures buf.Whole() == old(buf.Whole()) + v
    ensures old(Reachable(buf)) ==> buf.Contents() == old(buf.Contents()) + v && buf.Tidy() == old(buf.Tidy())
    ensures !old(Reachable(buf)) && old(buf.Tidy()) ==> (buf.Tidy() <==> v == [] || old(Room(buf)) == 0)
  {
    hide HasRoom, Elsewhere, From;
    n := |v|;
    ghost var whole, c := buf.Whole(), buf.Contents();
    var m, more := AppendRound(buf, v, o);
    Split(whole, v, m);
    Split(c, v, m);
    if more { AppendOn(buf, v[m..], o); }
  }

  // ---- prepend ----

  // There is room in front of what the first block holds.
  ghost predicate HasRoomBefore(buf: ByteBuf)
    reads buf
  {
    buf.blocks != [] && buf.blocks[0].readPos > 0
  }

  lemma SplitBefore(w: seq<byte>, rest: seq<byte>, m: nat)
    requires m <= |rest|
    ensures rest[..|rest| - m] + (rest[|rest| - m..] + w) == rest + w
    ensures m == |rest| ==> rest[|rest| - m..] + w == rest + w
  {
  }

  // The first block grew by `x` at its front.
  lemma FirstGrew(cs: seq<seq<byte>>, ds: seq<seq<byte>>, x: seq<byte>)
    requires cs != [] && ds == cs[0 := x + cs[0]]
    ensures Flat(ds) == x + Flat(cs) && (x != [] ==> ds[0] != [])
    ensures x == [] ==> ds == cs
  {
    FirstGrows(cs, x);
    assert |ds[0]| == |x| + |cs[0]|;
    assert x == [] ==> x + cs[0] == cs[0];
  }

  lemma EmptyBefore(cs: seq<seq<byte>>)
    ensures Flat([[]] + cs) == Flat(cs)
  {
    FromShift([[]] + cs, cs, 1, 0);
  }

  method FillFirst(buf: ByteBuf, src: seq<byte>, ghost o: View) returns (m: nat)
    requires buf.Valid() && buf.blocks != [] && Elsewhere(o, buf.regions)
    modifies buf`blocks, buf`chunks, buf.blocks[0].mem
    ensures buf.Valid() && Elsewhere(o, buf.regions) && |buf.blocks| == |old(buf.blocks)|
    ensures m == Min(|src|, old(buf.blocks[0].readPos)) && (old(HasRoomBefore(buf)) ==> m > 0 || src == [])
    ensures buf.Whole() == src[|src| - m..] + old(buf.Whole())
    ensures if m == 0 then buf.chunks == old(buf.chunks) else buf.chunks[0] != []
  {
    m := buf.PushFront(src, o);
    FirstGrew(old(buf.chunks), buf.chunks, src[|src| - m..]);
  }

  method NewFirst(buf: ByteBuf, ghost o: View)
    requires buf.Valid() && buf.growth > 0 && Elsewhere(o, buf.regions)
    modifies buf`blocks, buf`regions, buf`chunks
    ensures buf.Valid() && Elsewhere(o, buf.regions) && HasRoomBefore(buf)
    ensures buf.Whole() == old(buf.Whole())
    ensures fresh(buf.Footprint() - old(buf.Footprint()))
  {
    hide AllApart, BothApart, From;
    EmptyBefore(buf.chunks);
    buf.PrependBlock(0, o);
  }

  // One round: what fits goes in front of what the first block holds, and if something is left there is a new
  // first block for it.
  method PrependRound(buf: ByteBuf, src: seq<byte>, ghost o: View) returns (m: nat, more: bool)
    requires buf.Valid() && buf.growth > 0 && Elsewhere(o, buf.regions)
    modifies buf`blocks, buf`regions, buf`chunks, buf.Footprint()
    ensures buf.Valid() && Elsewhere(o, buf.regions) && m <= |src|
    ensures fresh(buf.Footprint() - old(buf.Footprint()))
    ensures if more then HasRoomBefore(buf) && (m < |src| || old(buf.blocks) == []) else m == |src| && buf.chunks != []
    ensures old(HasRoomBefore(buf)) ==> m > 0 || !more
    ensures buf.Whole() == src[|src| - m..] + old(buf.Whole())
    ensures !more ==> if src == [] then buf.chunks == old(buf.chunks) else buf.chunks[0] != []
  {
    hide AllApart, BothApart, From;
    m := 0;
    if buf.blocks != [] {
      m := FillFirst(buf, src, o);
      if m == |src| { return m, false; }
    }
    NewFirst(buf, o);
    more := true;
  }

  // Prepended bytes go in front of what all blocks hold. A reader gets them all iff it has not gone on from the
  // first block yet: what is put into the first block is in front of the block to be read next.
  method Prepend(buf: ByteBuf, v: seq<byte>, ghost o: View) returns (n: nat)
    requires buf.Valid() && buf.growth > 0 && Elsewhere(o, buf.regions)
    modifies buf`blocks, buf`regions, buf`chunks, buf.Footprint()
    ensures buf.Valid() && n == |v| && Elsewhere(o, buf.regions)
    ensures fresh(buf.Footprint() - old(buf.Footprint()))
    ensures buf.Whole() == v + old(buf.Whole())
    ensures buf.idx == 0 ==> buf.Contents() == v + old(buf.Contents()) && buf.Tidy()
    ensures buf.idx > 0 && v == [] ==> buf.Contents() == old(buf.Contents()) && buf.Tidy() == old(buf.Tidy())
    ensures buf.idx > 0 && v != [] ==> !buf.Tidy()
  {
    n := |v|;
    ghost var whole := v + buf.Whole();
    var m, more := PrependRound(buf, v, o);
    SplitBefore(old(buf.Whole()), v, m);
    var rest := v[..|v| - m];
    while more
      invariant buf.Valid() && Elsewhere(o, buf.regions)
      invariant fresh(buf.Footprint() - old(buf.Footprint()))
      invariant if more then HasRoomBefore(buf) && (buf.idx > 0 ==> rest != []) else rest == [] && buf.chunks != []
      invariant rest + buf.Whole() == whole
      invariant !more && buf.idx > 0 ==> if v == [] then buf.chunks == old(buf.chunks) else buf.chunks[0] != []
      decreases |rest|, more
    {
      ghost var w := buf.Whole();
      m, more := PrependRound(buf, rest, o);
      SplitBefore(w, rest, m);
      rest := rest[..|rest| - m];
    }
  }

  // ---- bytes that a reader does not get ----

  // A buffer of one byte that has been read up.
  method ReadUpByte(room: nat) returns (buf: ByteBuf)
    requires room > 0
    ensures fresh(buf) && fresh(buf.Footprint()) && buf.Valid() && buf.Tidy() && buf.growth > 0
    ensures buf.idx == |buf.blocks| == 1 && buf.Whole() == [] && buf.blocks[0].Ok() && Room(buf) == room
  {
    var bytes := new byte[room + 1];
    buf := new ByteBuf.FromVec(bytes, 1);
    var n := buf.Skip(2);
    buf.TidyIffWhole();
  }

  lemma OneOnly(w: seq<byte>, b: seq<byte>, c: seq<byte>)
    requires w == b + c && |w| == 1 && w != c
    ensures c == []
  {
    assert |b| == 0 ==> b + c == c;
  }

  lemma HiddenByte(buf: ByteBuf, x: byte)
    requires buf.Valid() && !buf.Tidy() && buf.Whole() == [x]
    ensures buf.Contents() == []
  {
    buf.TidyIffWhole();
    OneOnly(buf.Whole(), Between(buf.chunks, 0, buf.idx), buf.Contents());
  }

  // A byte is appended, and there is nothing to be read.
  method AppendHides(x: byte) returns (buf: ByteBuf)
    ensures buf.Valid() && buf.Whole() == [x] && buf.Contents() == []
  {
    hide Elsewhere;
    buf := ReadUpByte(1);
    NothingElse(buf.regions);
    var n := Append(buf, [x], View([], [], []));
    HiddenByte(buf, x);
  }

  method PrependHides(x: byte) returns (buf: ByteBuf)
    ensures buf.Valid() && buf.Whole() == [x] && buf.Contents() == []
  {
    hide Elsewhere;
    buf := ReadUpByte(1);
    NothingElse(buf.regions);
    var n := Prepend(buf, [x], View([], [], []));
    assert [x] + [] == [x];
    HiddenByte(buf, x);
  }

  lemma NothingElse(rs: seq<Region>)
    ensures Elsewhere(View([], [], []), rs)
  {
  }
}
