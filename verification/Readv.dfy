// `Buffer` in src/sys/unix/net/tcp.rs: what a socket receives is read into two reserve blocks, and the part of them
// that was filled is carved off and handed out.
module Receiving {
  import opened Slabs
  import opened Flats
  import opened Blocks
  import opened ByteBufs

  const BUF_SIZE: nat := 128 * 1024
  const MIN_APPENDABLE: nat := 8

  // The readv system call gives an error or the bytes it has put into the two regions, in order.
  datatype Received = Failure | Bytes(bytes: seq<byte>)

  datatype Result = Failed | Closed | Got(buf: ByteBuf, n: nat)

  ghost predicate Reserve(b: Block) {
    b.Ok() && b.readPos == 0 && b.writePos == 0 && b.cap >= MIN_APPENDABLE
  }

  lemma TwoApart(a: Region, b: Region)
    requires Apart(a, b)
    ensures AllApart([a, b])
  {
  }

  // Filling block k of two from its write position on.
  method Fill(bs: seq<Block>, ghost rs: seq<Region>, ghost cs: seq<seq<byte>>, k: nat, src: seq<byte>, ghost o: View)
    returns (b: Block)
    requires Hold(bs, rs, cs) && AllApart(rs) && k < |bs| && Elsewhere(o, rs) && |src| <= bs[k].Appendable()
      && cs[k] == []
    modifies bs[k].mem
    ensures b == bs[k].(writePos := bs[k].writePos + |src|)
    ensures Hold(bs[k := b], rs, cs[k := src]) && Elsewhere(o, rs)
  {
    b := WriteAfter(bs, rs, cs, k, src, o);
    assert [] + src == src;
    HoldSet(bs, rs, cs, k, b, src);
  }

  // The two regions, filled in order.
  method FillBoth(first: Block, second: Block, bytes: seq<byte>, ghost o: View) returns (b: Block, c: Block)
    requires Reserve(first) && Reserve(second) && Apart(RegionOf(first), RegionOf(second))
    requires |bytes| <= first.cap + second.cap && Elsewhere(o, [RegionOf(first), RegionOf(second)])
    modifies first.mem, second.mem
    ensures var n := if |bytes| <= first.cap then |bytes| else first.cap;
      && b == first.(writePos := n) && c == second.(writePos := |bytes| - n)
      && b.Ok() && c.Ok() && b.Bytes() == bytes[..n] && c.Bytes() == bytes[n..]
    ensures Elsewhere(o, [RegionOf(first), RegionOf(second)])
  {
    var n := if |bytes| <= first.cap then |bytes| else first.cap;
    ghost var rs := [RegionOf(first), RegionOf(second)];
    TwoApart(rs[0], rs[1]);
    b := Fill([first, second], rs, [[], []], 0, bytes[..n], o);
    assert [first, second][0 := b] == [b, second] && [[], []][0 := bytes[..n]] == [bytes[..n], []];
    c := Fill([b, second], rs, [bytes[..n], []], 1, bytes[n..], o);
    assert [b, second][1 := c] == [b, c] && [bytes[..n], []][1 := bytes[n..]] == [bytes[..n], bytes[n..]];
    assert [b, c][0].Bytes() == bytes[..n] && [b, c][1].Bytes() == bytes[n..];
  }

  // No block of `o` meets the region.
  ghost predicate Off(o: View, r: Region) {
    forall k :: 0 <= k < |o.rs| ==> Apart(o.rs[k], r)
  }

  lemma OffBoth(o: View, a: Region, b: Region)
    ensures BothApart(o.rs, [a, b]) <==> Off(o, a) && Off(o, b)
    ensures BothApart(o.rs, [a]) <==> Off(o, a)
  {
    if BothApart(o.rs, [a, b]) {
      forall k | 0 <= k < |o.rs| ensures Apart(o.rs[k], a) && Apart(o.rs[k], b) {
        assert Apart(o.rs[k], [a, b][0]) && Apart(o.rs[k], [a, b][1]);
      }
    }
    if BothApart(o.rs, [a]) {
      forall k | 0 <= k < |o.rs| ensures Apart(o.rs[k], a) { assert Apart(o.rs[k], [a][0]); }
    }
  }

  lemma OffPart(o: View, a: Region, b: Region)
    requires Off(o, b) && Within(a, b)
    ensures Off(o, a)
  {
  }

  lemma ApartPart(a: Region, b: Region, c: Region)
    requires Apart(b, c) && Within(a, b)
    ensures Apart(a, c) && Apart(c, a)
  {
  }

  // A block that was filled gives what it holds away, and keeps the rest if that has room for eight bytes.
  method Carve(b: Block) returns (taken: Block, rest: Block, kept: bool)
    requires b.Ok() && b.readPos == 0
    ensures taken.Ok() && taken.Bytes() == b.Bytes() && Within(RegionOf(taken), RegionOf(b))
    ensures Reserve(rest) && rest.Bytes() == [] && Apart(RegionOf(taken), RegionOf(rest))
    ensures if kept then Within(RegionOf(rest), RegionOf(b)) else fresh(rest.mem)
  {
    SplitOffDivides(b, b.writePos);
    var parts := b.SplitOff(b.writePos);
    taken, rest := parts.0, parts.1;
    kept := rest.Appendable() >= MIN_APPENDABLE;
    if !kept {
      var mem := new byte[BUF_SIZE];
      rest := Block(mem, 0, BUF_SIZE, 0, 0);
    }
    assert b.Bytes()[..b.writePos] == b.Bytes();
  }

  // The buffer holds exactly these bytes, and shares none of them with `o` or the reserve blocks.
  ghost predicate HandsOut(buf: ByteBuf, bytes: seq<byte>, o: View, first: Region, second: Region)
    reads buf, buf.Footprint()
  {
    && buf.Valid() && buf.Tidy() && buf.idx == 0 && buf.Contents() == bytes
    && BothApart(o.rs, buf.regions) && BothApart(buf.regions, [first]) && BothApart(buf.regions, [second])
  }

  lemma OneApart(a: Region, c: Region, d: Region)
    requires Apart(a, c) && Apart(a, d)
    ensures BothApart([a], [c]) && BothApart([a], [d])
  {
  }

  lemma BothTwoApart(a: Region, b: Region, c: Region, d: Region)
    requires Apart(a, c) && Apart(a, d) && Apart(b, c) && Apart(b, d)
    ensures BothApart([a, b], [c]) && BothApart([a, b], [d])
  {
  }

  // What was received fits into the block that is filled first.
  method HandOutOne(b: Block, bytes: seq<byte>, ghost second: Region, ghost o: View) returns (buf: ByteBuf, rest: Block)
    requires b.Ok() && b.readPos == 0 && b.Bytes() == bytes && Off(o, RegionOf(b)) && Apart(RegionOf(b), second)
    ensures fresh(buf) && Reserve(rest) && Off(o, RegionOf(rest)) && Apart(RegionOf(rest), second)
    ensures HandsOut(buf, bytes, o, RegionOf(rest), second)
  {
    var taken, kept;
    taken, rest, kept := Carve(b);
    ghost var t, q := RegionOf(taken), RegionOf(rest);
    OffPart(o, t, RegionOf(b));
    ApartPart(t, RegionOf(b), second);
    if kept {
      OffPart(o, q, RegionOf(b));
      ApartPart(q, RegionOf(b), second);
    }
    OffBoth(o, t, t);
    OneApart(t, q, second);
    FromFew(bytes, []);
    buf := new ByteBuf.Of([taken], 8 * 1024, [t], [bytes]);
  }

  // It does not: the block is handed out as a whole, and so is part of the other one.
  method HandOutTwo(b: Block, c: Block, x: seq<byte>, y: seq<byte>, ghost o: View)
    returns (buf: ByteBuf, first: Block, rest: Block, kept: bool)
    requires b.Ok() && b.readPos == 0 && b.Bytes() == x && Off(o, RegionOf(b)) && Apart(RegionOf(b), RegionOf(c))
    requires c.Ok() && c.readPos == 0 && c.Bytes() == y && Off(o, RegionOf(c))
    ensures fresh(buf) && Reserve(first) && Reserve(rest) && Apart(RegionOf(first), RegionOf(rest))
    ensures Off(o, RegionOf(first)) && Off(o, RegionOf(rest))
    ensures HandsOut(buf, x + y, o, RegionOf(first), RegionOf(rest))
  {
    var taken;
    taken, rest, kept := Carve(c);
    var mem := new byte[BUF_SIZE];
    first := Block(mem, 0, BUF_SIZE, 0, 0);
    ghost var s, t, p, q := RegionOf(b), RegionOf(taken), RegionOf(first), RegionOf(rest);
    OffPart(o, t, RegionOf(c));
    ApartPart(t, RegionOf(c), s);
    if kept {
      OffPart(o, q, RegionOf(c));
      ApartPart(q, RegionOf(c), s);
    }
    OffBoth(o, s, t);
    TwoApart(s, t);
    BothTwoApart(s, t, p, q);
    FromFew(x, y);
    buf := new ByteBuf.Of([b, taken], 8 * 1024, [s, t], [x, y]);
  }

  lemma ElsewhereSwaps(o: View, a: Region, b: Region)
    ensures Elsewhere(o, [a, b]) <==> Elsewhere(o, [b, a])
  {
    OffBoth(o, a, b);
    OffBoth(o, b, a);
  }

  lemma HandsOutSwaps(buf: ByteBuf, bytes: seq<byte>, o: View, a: Region, b: Region)
    ensures HandsOut(buf, bytes, o, a, b) <==> HandsOut(buf, bytes, o, b, a)
  {
  }

  // The reserve blocks are filled and carved. `flip` says that the second one, of which something is left, comes first
  // the next time.
  method HandOut(first: Block, second: Block, bytes: seq<byte>, ghost o: View)
    returns (buf: ByteBuf, first': Block, second': Block, flip: bool)
    requires Reserve(first) && Reserve(second) && Apart(RegionOf(first), RegionOf(second))
    requires |bytes| <= first.cap + second.cap && Elsewhere(o, [RegionOf(first), RegionOf(second)])
    modifies first.mem, second.mem
    ensures fresh(buf) && Reserve(first') && Reserve(second') && Apart(RegionOf(first'), RegionOf(second'))
    ensures Elsewhere(o, [RegionOf(first'), RegionOf(second')])
    ensures HandsOut(buf, bytes, o, RegionOf(first'), RegionOf(second'))
  {
    hide HandsOut, Off;
    var b, c := FillBoth(first, second, bytes, o);
    OffBoth(o, RegionOf(first), RegionOf(second));
    second', flip := second, false;
    if |bytes| <= first.cap {
      assert bytes[..|bytes|] == bytes;
      buf, first' := HandOutOne(b, bytes, RegionOf(second), o);
    } else {
      assert bytes[..first.cap] + bytes[first.cap..] == bytes;
      buf, first', second', flip := HandOutTwo(b, c, bytes[..first.cap], bytes[first.cap..], o);
    }
    OffBoth(o, RegionOf(first'), RegionOf(second'));
  }

  class Buffer {
    var block1: Block
    var block2: Block
    var reverse: bool

    // The reserve blocks are empty, have room for eight bytes, and share no byte.
    ghost predicate Valid()
      reads this
    {
      Reserve(block1) && Reserve(block2) && Apart(RegionOf(block1), RegionOf(block2))
    }

    ghost function Regions(): (rs: seq<Region>)
      reads this
    {
      [RegionOf(block1), RegionOf(block2)]
    }

    // The block that is filled first, and the other one.
    function First(): (b: Block)
      reads this
    {
      if reverse then block2 else block1
    }

    function Second(): (b: Block)
      reads this
    {
      if reverse then block1 else block2
    }

    constructor ()
      ensures Valid() && fresh(block1.mem) && fresh(block2.mem)
    {
      var mem1 := new byte[BUF_SIZE];
      var mem2 := new byte[BUF_SIZE];
      block1, block2, reverse := Block(mem1, 0, BUF_SIZE, 0, 0), Block(mem2, 0, BUF_SIZE, 0, 0), false;
    }

    // What is handed out is exactly the bytes received, in order. It shares no byte with the reserve blocks, which are
    // empty again, or with any other blocks `o`, and these hold what they held.
    method Readv(received: Received, ghost o: View) returns (r: Result)
      requires Valid() && Elsewhere(o, Regions())
      requires received.Bytes? ==> |received.bytes| <= block1.cap + block2.cap
      modifies this, block1.mem, block2.mem
      ensures Valid() && Elsewhere(o, Regions())
      ensures r.Failed? <==> received.Failure?
      ensures r.Closed? <==> received == Bytes([])
      ensures !r.Got? ==> Regions() == old(Regions())
      ensures r.Got? ==> r.n == |received.bytes| && fresh(r.buf)
      ensures r.Got? ==> HandsOut(r.buf, received.bytes, o, RegionOf(block1), RegionOf(block2))
    {
      if received.Failure? { return Failed; }
      if received.bytes == [] { return Closed; }
      hide Elsewhere, HandsOut, BothApart, Off, Apart;
      var buf := Hand(received.bytes, o);
      r := Got(buf, |received.bytes|);
    }

    method Hand(bytes: seq<byte>, ghost o: View) returns (buf: ByteBuf)
      requires Valid() && Elsewhere(o, Regions()) && |bytes| <= block1.cap + block2.cap
      modifies this, block1.mem, block2.mem
      ensures Valid() && Elsewhere(o, Regions()) && fresh(buf)
      ensures HandsOut(buf, bytes, o, RegionOf(block1), RegionOf(block2))
    {
      hide AllApart, BothApart, From;
      ElsewhereSwaps(o, RegionOf(block1), RegionOf(block2));
      var first, second, flip;
      buf, first, second, flip := HandOut(First(), Second(), bytes, o);
      if reverse { block1, block2 := second, first; } else { block1, block2 := first, second; }
      if flip { reverse := !reverse; }
      ElsewhereSwaps(o, RegionOf(first), RegionOf(second));
      HandsOutSwaps(buf, bytes, o, RegionOf(first), RegionOf(second));
    }
  }
}
