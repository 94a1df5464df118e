// src/buf/block.rs: a block is a view of a region of an allocation that other blocks may share.
module Blocks {
  import opened Flats

  // The region [base, base + cap) of `mem`; the bytes between the two positions (relative to `base`) are its
  // contents.
  datatype Block = Block(mem: array<byte>, base: nat, cap: nat, readPos: nat, writePos: nat) {
    ghost predicate Ok() {
      readPos <= writePos <= cap && base + cap <= mem.Length
    }

    function Len(): (r: nat)
      requires Ok()
    {
      writePos - readPos
    }

    predicate IsEmpty() {
      readPos == writePos
    }

    function Appendable(): (r: nat)
      requires Ok()
    {
      cap - writePos
    }

    function Prependable(): (r: nat) {
      readPos
    }

    // as_bytes
    function Bytes(): (r: seq<byte>)
      requires Ok()
      reads mem
      ensures |r| == Len()
    {
      mem[base + readPos..base + writePos]
    }

    // as_bytes_range: `len` bytes from position `from`
    function Range(from: nat, len: nat): (r: seq<byte>)
      requires Ok() && from + len <= cap
      reads mem
    {
      mem[base + from..base + from + len]
    }

    // Splits the region at the at-th byte of the contents.
    function SplitOff(at: nat): (r: (Block, Block))
      requires Ok() && at <= Len()
      ensures r.0.Ok() && r.1.Ok() && r.0.mem == r.1.mem == mem
    {
      var off := readPos + at;
      (this.(writePos := off, cap := off), Block(mem, base + off, cap - off, 0, writePos - off))
    }
  }

  // What part of which allocation a block may touch.
  datatype Region = Region(mem: array<byte>, base: nat, cap: nat)

  function RegionOf(b: Block): (r: Region) {
    Region(b.mem, b.base, b.cap)
  }

  // The two regions have no byte in common.
  predicate Apart(a: Region, b: Region) {
    a.mem != b.mem || a.base + a.cap <= b.base || b.base + b.cap <= a.base
  }

  // The region `a` is part of the region `b`.
  predicate Within(a: Region, b: Region) {
    a.mem == b.mem && b.base <= a.base && a.base + a.cap <= b.base + b.cap
  }

  ghost predicate AllApart(rs: seq<Region>) {
    forall j, k {:trigger Apart(rs[j], rs[k])} :: 0 <= j < k < |rs| ==> Apart(rs[j], rs[k])
  }

  // The region is part of one of `qs`.
  ghost predicate WithinSome(r: Region, qs: seq<Region>) {
    exists j :: 0 <= j < |qs| && Within(r, qs[j])
  }

  // Every region of `rs` is part of one of `qs`.
  ghost predicate AllWithin(rs: seq<Region>, qs: seq<Region>) {
    forall k {:trigger WithinSome(rs[k], qs)} :: 0 <= k < |rs| ==> WithinSome(rs[k], qs)
  }

  // No region of `rs` meets one of `qs`.
  ghost predicate BothApart(rs: seq<Region>, qs: seq<Region>) {
    forall j, k {:trigger Apart(rs[j], qs[k])} :: 0 <= j < |rs| && 0 <= k < |qs| ==> Apart(rs[j], qs[k])
  }

  ghost function Mems(rs: seq<Region>): (r: set<array<byte>>) {
    set k | 0 <= k < |rs| :: rs[k].mem
  }

  // Block k is a well-formed view of the region rs[k], and holds the bytes cs[k].
  ghost predicate Hold(bs: seq<Block>, rs: seq<Region>, cs: seq<seq<byte>>)
    reads Mems(rs)
  {
    |bs| == |rs| == |cs| &&
    forall k :: 0 <= k < |bs| ==> bs[k].Ok() && RegionOf(bs[k]) == rs[k] && bs[k].Bytes() == cs[k]
  }

  // The same, with nothing said about what block k holds.
  ghost predicate HoldBut(bs: seq<Block>, rs: seq<Region>, cs: seq<seq<byte>>, k: nat)
    reads Mems(rs)
  {
    |bs| == |rs| == |cs| &&
    forall j :: 0 <= j < |bs| ==> bs[j].Ok() && RegionOf(bs[j]) == rs[j] && (j != k ==> bs[j].Bytes() == cs[j])
  }

  lemma HoldSet(bs: seq<Block>, rs: seq<Region>, cs: seq<seq<byte>>, k: nat, b: Block, c: seq<byte>)
    requires HoldBut(bs, rs, cs, k) && k < |bs| && b.Ok() && RegionOf(b) == rs[k] && b.Bytes() == c
    ensures Hold(bs[k := b], rs, cs[k := c])
  {
  }

  // Splitting off divides the contents and the region, and shares the allocation.
  lemma SplitOffDivides(b: Block, at: nat)
    requires b.Ok() && at <= b.Len()
    ensures var (l, r) := b.SplitOff(at);
      && l.Bytes() == b.Bytes()[..at] && r.Bytes() == b.Bytes()[at..]
      && Apart(RegionOf(l), RegionOf(r)) && Within(RegionOf(l), RegionOf(b)) && Within(RegionOf(r), RegionOf(b))
      && l.cap + r.cap == b.cap
  {
    var (l, r) := b.SplitOff(at);
    var lo, mid, hi := b.base + b.readPos, b.base + b.readPos + at, b.base + b.writePos;
    assert b.mem[lo..mid] == b.mem[lo..hi][..at] && b.mem[mid..hi] == b.mem[lo..hi][at..];
  }

  lemma WithinSelf(rs: seq<Region>)
    ensures AllWithin(rs, rs)
  {
    forall k | 0 <= k < |rs| ensures WithinSome(rs[k], rs) { assert Within(rs[k], rs[k]); }
  }

  // Somebody else's blocks, with their regions and what they hold.
  datatype View = View(bs: seq<Block>, rs: seq<Region>, cs: seq<seq<byte>>)

  // They still hold it, and share no byte with the regions `rs`.
  ghost predicate Elsewhere(o: View, rs: seq<Region>)
    reads Mems(o.rs)
  {
    Hold(o.bs, o.rs, o.cs) && BothApart(o.rs, rs)
  }

  // `dst` held `before`, but for `src` at position `at`.
  ghost predicate Overwritten(dst: array<byte>, before: seq<byte>, at: nat, src: seq<byte>)
    reads dst
  {
    && |before| == dst.Length
    && forall i :: 0 <= i < dst.Length ==> dst[i] == if at <= i < at + |src| then src[i - at] else before[i]
  }

  // ptr::copy_nonoverlapping into an allocation
  method CopyInto(dst: array<byte>, at: nat, src: seq<byte>)
    requires at + |src| <= dst.Length
    modifies dst
    ensures Overwritten(dst, old(dst[..]), at, src)
  {
    for n := 0 to |src|
      invariant forall i :: 0 <= i < dst.Length ==> dst[i] == if at <= i < at + n then src[i - at] else old(dst[i])
    {
      dst[at + n] := src[n];
    }
  }

  // Writes `src` at position `at` of block k, within its region: no other block notices.
  method WriteBlock(bs: seq<Block>, ghost rs: seq<Region>, ghost cs: seq<seq<byte>>, k: nat, at: nat, src: seq<byte>,
    ghost o: View)
    requires Hold(bs, rs, cs) && AllApart(rs) && k < |bs| && at + |src| <= bs[k].cap && Elsewhere(o, rs)
    modifies bs[k].mem
    ensures HoldBut(bs, rs, cs, k) && Elsewhere(o, rs)
    ensures bs[k].Range(at, |src|) == src
    ensures Overwritten(bs[k].mem, old(bs[k].mem[..]), bs[k].base + at, src)
    ensures at >= bs[k].writePos || at + |src| <= bs[k].readPos ==> bs[k].Bytes() == cs[k]
  {
    var b := bs[k];
    assert b.Bytes() == cs[k];
    CopyInto(b.mem, b.base + at, src);
    forall j | 0 <= j < |bs| && j != k ensures bs[j].Bytes() == cs[j] {
      assert if j < k then Apart(rs[j], rs[k]) else Apart(rs[k], rs[j]);
      assert old(bs[j].Bytes()) == cs[j];
    }
    forall j | 0 <= j < |o.bs| ensures o.bs[j].Bytes() == o.cs[j] {
      assert Apart(o.rs[j], rs[k]);
      assert old(o.bs[j].Bytes()) == o.cs[j];
    }
  }

  lemma RangeJoins(b: Block, from: nat, n: nat, m: nat)
    requires b.Ok() && from + n + m <= b.cap
    ensures b.Range(from, n + m) == b.Range(from, n) + b.Range(from + n, m)
  {
  }

  // Appends to block k, and prepends to it.
  method WriteAfter(bs: seq<Block>, ghost rs: seq<Region>, ghost cs: seq<seq<byte>>, k: nat, src: seq<byte>,
      ghost o: View)
    returns (b: Block)
    requires Hold(bs, rs, cs) && AllApart(rs) && k < |bs| && Elsewhere(o, rs) && |src| <= bs[k].Appendable()
    modifies bs[k].mem
    ensures HoldBut(bs, rs, cs, k) && Elsewhere(o, rs)
    ensures b == bs[k].(writePos := bs[k].writePos + |src|) && b.Bytes() == cs[k] + src
  {
    b := bs[k];
    WriteBlock(bs, rs, cs, k, b.writePos, src, o);
    RangeJoins(b, b.readPos, b.Len(), |src|);
    b := b.(writePos := b.writePos + |src|);
  }

  method WriteBefore(bs: seq<Block>, ghost rs: seq<Region>, ghost cs: seq<seq<byte>>, k: nat, src: seq<byte>,
      ghost o: View)
    returns (b: Block)
    requires Hold(bs, rs, cs) && AllApart(rs) && k < |bs| && Elsewhere(o, rs) && |src| <= bs[k].readPos
    modifies bs[k].mem
    ensures HoldBut(bs, rs, cs, k) && Elsewhere(o, rs)
    ensures b == bs[k].(readPos := bs[k].readPos - |src|) && b.Bytes() == src + cs[k]
  {
    b := bs[k];
    WriteBlock(bs, rs, cs, k, b.readPos - |src|, src, o);
    RangeJoins(b, b.readPos - |src|, |src|, b.Len());
    b := b.(readPos := b.readPos - |src|);
  }

  // `c` with the bytes from position `pos` on replaced.
  function Over(c: seq<byte>, pos: nat, src: seq<byte>): (r: seq<byte>)
    requires pos + |src| <= |c|
    ensures |r| == |c|
  {
    c[..pos] + src + c[pos + |src|..]
  }

  lemma OverIs(b: Block, before: seq<byte>, c: seq<byte>, pos: nat, src: seq<byte>)
    requires b.Ok() && pos + |src| <= |c| && Overwritten(b.mem, before, b.base + b.readPos + pos, src)
    requires c == before[b.base + b.readPos..b.base + b.writePos]
    ensures b.Bytes() == Over(c, pos, src)
  {
  }

  // Writes over contents of block k.
  method WriteOver(bs: seq<Block>, ghost rs: seq<Region>, ghost cs: seq<seq<byte>>, k: nat, pos: nat, src: seq<byte>,
    ghost o: View)
    requires Hold(bs, rs, cs) && AllApart(rs) && k < |bs| && Elsewhere(o, rs) && pos + |src| <= |cs[k]|
    modifies bs[k].mem
    ensures HoldBut(bs, rs, cs, k) && Elsewhere(o, rs)
    ensures bs[k].Bytes() == Over(cs[k], pos, src)
  {
    ghost var b := bs[k];
    assert b.Bytes() == cs[k];
    WriteBlock(bs, rs, cs, k, bs[k].readPos + pos, src, o);
    OverIs(b, old(b.mem[..]), cs[k], pos, src);
  }
}
