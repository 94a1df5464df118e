// src/buf/mod.rs: a chain of blocks read and written as one sequence of bytes.
module ByteBufs {
  import opened Slabs
  import opened Flats
  import opened Blocks

  // ---- positions ----

  // Position `pos` of the chain from piece `idx` on is position `off` of piece i; of several, the first such i.
  ghost predicate Located(cs: seq<seq<byte>>, idx: nat, pos: nat, i: nat, off: nat) {
    && idx <= i < |cs| && off <= |cs[i]|
    && pos == |Between(cs, idx, i)| + off
    && (i > idx ==> off > 0)
  }

  // The first n bytes of piece i have been read.
  lemma ReadFlat(cs: seq<seq<byte>>, i: nat, n: nat)
    requires i < |cs| && n <= |cs[i]|
    ensures From(cs, i) == cs[i][..n] + From(cs[i := cs[i][n..]], i)
  {
    FromShift(cs[i := cs[i][n..]], cs, i + 1, i + 1);
  }

  lemma Prefix(a: seq<byte>, b: seq<byte>, c: seq<byte>)
    ensures a + (b + c) == (a + b) + c
    ensures (a + (b + c))[|a| + |b|..] == c
  {
  }

  // ---- cutting a list of blocks ----

  // Cuts block i at `off`. What is cut off it is kept if it holds a byte or has room for eight.
  function Cut(bs: seq<Block>, i: nat, off: nat): (r: (seq<Block>, seq<Block>))
    requires i < |bs| && bs[i].Ok() && off <= bs[i].Len()
  {
    var (left, right) := bs[i].SplitOff(off);
    (bs[..i] + [left],
     if !right.IsEmpty() || right.Appendable() >= 8 then [right] + bs[i + 1..] else bs[i + 1..])
  }

  // The pieces that go with it.
  function CutPieces(cs: seq<seq<byte>>, i: nat, off: nat, n: nat): (r: (seq<seq<byte>>, seq<seq<byte>>))
    requires i < |cs| && off <= |cs[i]|
  {
    (cs[..i] + [cs[i][..off]], if n == |cs| - i then [cs[i][off..]] + cs[i + 1..] else cs[i + 1..])
  }

  function CutRegions(rs: seq<Region>, bs: seq<Block>, i: nat, off: nat): (r: (seq<Region>, seq<Region>))
    requires i < |rs| == |bs| && bs[i].Ok() && off <= bs[i].Len()
  {
    var (left, right) := bs[i].SplitOff(off);
    (rs[..i] + [RegionOf(left)],
     if !right.IsEmpty() || right.Appendable() >= 8 then [RegionOf(right)] + rs[i + 1..] else rs[i + 1..])
  }

  lemma CutApart(rs: seq<Region>, bs: seq<Block>, i: nat, off: nat)
    requires AllApart(rs) && i < |rs| == |bs| && bs[i].Ok() && RegionOf(bs[i]) == rs[i] && off <= bs[i].Len()
    ensures var (h, t) := CutRegions(rs, bs, i, off);
      && AllApart(h) && AllApart(t) && BothApart(h, t) && AllWithin(h, rs) && AllWithin(t, rs)
  {
    SplitOffDivides(bs[i], off);
    var (h, t) := CutRegions(rs, bs, i, off);
    var d := |rs| - |t|;
    forall k | 0 <= k < |h| ensures Within(h[k], rs[k]) { }
    forall k | 0 <= k < |t| ensures Within(t[k], rs[k + d]) { }
    PartsApart(rs, h, 0);
    PartsApart(rs, t, d);
    forall j, k | 0 <= j < |h| && 0 <= k < |t| ensures Apart(h[j], t[k]) {
      assert j < k + d ==> Apart(rs[j], rs[k + d]);
    }
  }

  // Parts of regions that follow each other.
  lemma PartsApart(rs: seq<Region>, a: seq<Region>, d: nat)
    requires AllApart(rs) && d + |a| <= |rs| && forall k :: 0 <= k < |a| ==> Within(a[k], rs[k + d])
    ensures AllApart(a) && AllWithin(a, rs)
  {
    forall k | 0 <= k < |a| ensures WithinSome(a[k], rs) { assert Within(a[k], rs[k + d]); }
    forall j, k | 0 <= j < k < |a| ensures Apart(a[j], a[k]) { assert Apart(rs[j + d], rs[k + d]); }
  }

  lemma CutHold(bs: seq<Block>, rs: seq<Region>, cs: seq<seq<byte>>, i: nat, off: nat)
    requires Hold(bs, rs, cs) && i < |bs| && off <= bs[i].Len()
    ensures var (h, t) := Cut(bs, i, off);
      var (hr, tr) := CutRegions(rs, bs, i, off);
      var (hs, ts) := CutPieces(cs, i, off, |t|);
      Hold(h, hr, hs) && Hold(t, tr, ts) && (|t| != |cs| - i ==> cs[i][off..] == [])
  {
    SplitOffDivides(bs[i], off);
    var (left, right) := bs[i].SplitOff(off);
    HoldHead(bs, rs, cs, i, left, cs[i][..off]);
    HoldTail(bs, rs, cs, i, right, cs[i][off..]);
  }

  lemma HoldHead(bs: seq<Block>, rs: seq<Region>, cs: seq<seq<byte>>, i: nat, l: Block, c: seq<byte>)
    requires Hold(bs, rs, cs) && i < |bs| && l.Ok() && l.mem == rs[i].mem && l.Bytes() == c
    ensures Hold(bs[..i] + [l], rs[..i] + [RegionOf(l)], cs[..i] + [c])
  {
  }

  lemma HoldTail(bs: seq<Block>, rs: seq<Region>, cs: seq<seq<byte>>, i: nat, r: Block, c: seq<byte>)
    requires Hold(bs, rs, cs) && i < |bs| && r.Ok() && r.mem == rs[i].mem && r.Bytes() == c
    ensures Hold([r] + bs[i + 1..], [RegionOf(r)] + rs[i + 1..], [c] + cs[i + 1..])
    ensures Hold(bs[i + 1..], rs[i + 1..], cs[i + 1..])
  {
  }

  lemma CutFlat(cs: seq<seq<byte>>, idx: nat, pos: nat, i: nat, off: nat, n: nat)
    requires Located(cs, idx, pos, i, off) && (n != |cs| - i ==> cs[i][off..] == [])
    ensures var (hs, ts) := CutPieces(cs, i, off, n);
      From(cs, idx) == From(hs, idx) + From(ts, 0) && |From(hs, idx)| == pos
  {
    var (hs, ts) := CutPieces(cs, i, off, n);
    HeadFlat(cs, hs, idx, i, off);
    TailFlat(cs, ts, i, off);
    FromSplits(cs, idx, i);
    InTwo(Between(cs, idx, i), cs[i], From(cs, i + 1), off);
  }

  lemma InTwo(l: seq<byte>, c: seq<byte>, r: seq<byte>, off: nat)
    requires off <= |c|
    ensures l + (c + r) == (l + c[..off]) + (c[off..] + r)
  {
  }

  lemma HeadFlat(cs: seq<seq<byte>>, hs: seq<seq<byte>>, idx: nat, i: nat, off: nat)
    requires idx <= i < |cs| && off <= |cs[i]|
    requires |hs| == i + 1 && hs[i] == cs[i][..off] && (forall k :: 0 <= k < i ==> hs[k] == cs[k])
    ensures From(hs, idx) == Between(cs, idx, i) + cs[i][..off]
  {
    FromAll(hs, idx);
    BetweenSame(hs, cs, idx, i);
  }

  lemma TailFlat(cs: seq<seq<byte>>, ts: seq<seq<byte>>, i: nat, off: nat)
    requires i < |cs| && off <= |cs[i]|
    requires ts == [cs[i][off..]] + cs[i + 1..] || (cs[i][off..] == [] && ts == cs[i + 1..])
    ensures From(ts, 0) == cs[i][off..] + From(cs, i + 1)
  {
    FromShift(ts, cs, |ts| - (|cs| - i - 1), i + 1);
  }

  // Everything about a cut in one place.
  lemma CutUp(bs: seq<Block>, rs: seq<Region>, cs: seq<seq<byte>>, idx: nat, pos: nat, i: nat, off: nat,
    head: seq<Block>, rest: seq<Block>)
    returns (hr: seq<Region>, tr: seq<Region>, hs: seq<seq<byte>>, ts: seq<seq<byte>>)
    requires Hold(bs, rs, cs) && AllApart(rs) && Located(cs, idx, pos, i, off) && (head, rest) == Cut(bs, i, off)
    ensures Hold(head, hr, hs) && Hold(rest, tr, ts) && |head| == i + 1
    ensures AllApart(hr) && AllApart(tr) && BothApart(hr, tr) && AllWithin(hr, rs) && AllWithin(tr, rs)
    ensures From(cs, idx) == From(hs, idx) + From(ts, 0) && |From(hs, idx)| == pos
    ensures forall k :: 0 <= k < i ==> hs[k] == cs[k]
    ensures rest == [] ==> ts == []
  {
    var r, p := CutRegions(rs, bs, i, off), CutPieces(cs, i, off, |rest|);
    hr, tr, hs, ts := r.0, r.1, p.0, p.1;
    CutApart(rs, bs, i, off);
    CutHold(bs, rs, cs, i, off);
    CutFlat(cs, idx, pos, i, off, |rest|);
  }

  lemma JoinHold(bs: seq<Block>, rs: seq<Region>, cs: seq<seq<byte>>, bs': seq<Block>, rs': seq<Region>,
    cs': seq<seq<byte>>, idx: nat, pos: nat)
    requires Hold(bs, rs, cs) && AllApart(rs) && Hold(bs', rs', cs') && AllApart(rs') && BothApart(rs, rs')
    requires idx <= |bs| && pos <= |bs'|
    ensures Hold(bs + bs'[pos..], rs + rs'[pos..], cs + cs'[pos..]) && AllApart(rs + rs'[pos..])
    ensures AllWithin(rs + rs'[pos..], rs + rs')
    ensures From(cs + cs'[pos..], idx) == From(cs, idx) + From(cs', pos)
  {
    JoinRegions(rs, rs', pos);
    JoinFlat(cs, cs', idx, pos);
  }

  lemma JoinRegions(rs: seq<Region>, rs': seq<Region>, pos: nat)
    requires AllApart(rs) && AllApart(rs') && BothApart(rs, rs') && pos <= |rs'|
    ensures AllApart(rs + rs'[pos..]) && AllWithin(rs + rs'[pos..], rs + rs')
  {
    var qs := rs + rs'[pos..];
    forall j, k | 0 <= j < k < |qs| ensures Apart(qs[j], qs[k]) {
      assert if k < |rs| then Apart(rs[j], rs[k])
             else if j < |rs| then Apart(rs[j], rs'[k - |rs| + pos])
             else Apart(rs'[j - |rs| + pos], rs'[k - |rs| + pos]);
    }
    forall k | 0 <= k < |qs| ensures WithinSome(qs[k], rs + rs') {
      assert Within(qs[k], (rs + rs')[if k < |rs| then k else k + pos]);
    }
  }

  lemma JoinFlat(cs: seq<seq<byte>>, cs': seq<seq<byte>>, idx: nat, pos: nat)
    requires idx <= |cs| && pos <= |cs'|
    ensures From(cs + cs'[pos..], idx) == From(cs, idx) + From(cs', pos)
  {
    var ds := cs + cs'[pos..];
    FromSplits(ds, idx, |cs|);
    FromAll(cs, idx);
    BetweenSame(ds, cs, idx, |cs|);
    FromShift(ds, cs', |cs|, pos);
  }

  lemma DropHold(bs: seq<Block>, rs: seq<Region>, cs: seq<seq<byte>>, k: nat)
    requires Hold(bs, rs, cs) && AllApart(rs) && k <= |bs|
    ensures Hold(bs[k..], rs[k..], cs[k..]) && AllApart(rs[k..]) && AllWithin(rs[k..], rs)
    ensures From(cs[k..], 0) == From(cs, k)
  {
    FromShift(cs[k..], cs, 0, k);
    var qs := rs[k..];
    forall j | 0 <= j < |qs| ensures WithinSome(qs[j], rs) { assert Within(qs[j], rs[j + k]); }
    forall i, j | 0 <= i < j < |qs| ensures Apart(qs[i], qs[j]) { assert Apart(rs[i + k], rs[j + k]); }
  }

  // Block k is divided in place, and a block is put in at position i.
  function Divided<T>(s: seq<T>, k: nat, l: T, r: T): (res: seq<T>)
    requires k < |s|
  {
    s[..k] + [l, r] + s[k + 1..]
  }

  function Inserted<T>(s: seq<T>, i: nat, x: T): (r: seq<T>)
    requires i <= |s|
  {
    s[..i] + [x] + s[i..]
  }

  lemma InsertedEnds<T>(s: seq<T>, x: T)
    ensures Inserted(s, |s|, x) == s + [x] && (s + [x])[..|s|] == s
    ensures Inserted(s, 0, x) == [x] + s && ([x] + s)[1..] == s
  {
  }

  lemma DivideHold(bs: seq<Block>, rs: seq<Region>, cs: seq<seq<byte>>, k: nat, at: nat)
    requires Hold(bs, rs, cs) && k < |bs| && at <= bs[k].Len()
    ensures var (l, r) := bs[k].SplitOff(at);
      Hold(Divided(bs, k, l, r), Divided(rs, k, RegionOf(l), RegionOf(r)), Divided(cs, k, cs[k][..at], cs[k][at..]))
  {
    SplitOffDivides(bs[k], at);
  }

  lemma DivideRegions(rs: seq<Region>, qs: seq<Region>, k: nat, l: Region, r: Region)
    requires AllApart(rs) && k < |rs| && Within(l, rs[k]) && Within(r, rs[k]) && Apart(l, r) && BothApart(qs, rs)
    ensures AllApart(Divided(rs, k, l, r)) && BothApart(qs, Divided(rs, k, l, r))
  {
    var ds := Divided(rs, k, l, r);
    forall i, j | 0 <= i < j < |ds| ensures Apart(ds[i], ds[j]) {
      var i', j' := if i > k then i - 1 else i, if j > k then j - 1 else j;
      assert i' < j' ==> Apart(rs[i'], rs[j']);
    }
    forall i, j | 0 <= i < |qs| && 0 <= j < |ds| ensures Apart(qs[i], ds[j]) {
      assert Apart(qs[i], rs[if j > k then j - 1 else j]);
    }
  }

  lemma DivideMems(rs: seq<Region>, k: nat, l: Region, r: Region)
    requires k < |rs| && l.mem == r.mem == rs[k].mem
    ensures Mems(Divided(rs, k, l, r)) == Mems(rs)
  {
    var ds := Divided(rs, k, l, r);
    forall m | m in Mems(rs) ensures m in Mems(ds) {
      var i :| 0 <= i < |rs| && rs[i].mem == m;
      assert ds[if i > k then i + 1 else i].mem == m;
    }
    forall i | 0 <= i < |ds| ensures ds[i].mem in Mems(rs) { assert ds[i].mem == rs[if i > k then i - 1 else i].mem; }
  }

  lemma InsertMems(rs: seq<Region>, i: nat, r: Region)
    requires i <= |rs|
    ensures Mems(Inserted(rs, i, r)) == Mems(rs) + {r.mem}
  {
    var ds := Inserted(rs, i, r);
    assert ds[i] == r;
    forall m | m in Mems(rs) ensures m in Mems(ds) {
      var j :| 0 <= j < |rs| && rs[j].mem == m;
      assert ds[if j < i then j else j + 1].mem == m;
    }
    forall j | 0 <= j < |ds| ensures ds[j].mem in Mems(rs) + {r.mem} {
      assert j != i ==> ds[j] == rs[if j < i then j else j - 1];
    }
  }

  lemma InsertHold(bs: seq<Block>, rs: seq<Region>, cs: seq<seq<byte>>, i: nat, b: Block, c: seq<byte>)
    requires Hold(bs, rs, cs) && i <= |bs| && b.Ok() && b.Bytes() == c
    ensures Hold(Inserted(bs, i, b), Inserted(rs, i, RegionOf(b)), Inserted(cs, i, c))
  {
  }

  lemma InsertRegions(rs: seq<Region>, qs: seq<Region>, i: nat, r: Region)
    requires AllApart(rs) && i <= |rs| && BothApart(qs, rs)
    requires r.mem !in Mems(rs) && r.mem !in Mems(qs)
    ensures AllApart(Inserted(rs, i, r)) && BothApart(qs, Inserted(rs, i, r))
  {
    var ds := Inserted(rs, i, r);
    forall k | 0 <= k < |rs| ensures rs[k].mem != r.mem { assert rs[k].mem in Mems(rs); }
    forall k | 0 <= k < |qs| ensures qs[k].mem != r.mem { assert qs[k].mem in Mems(qs); }
    forall j, k | 0 <= j < k < |ds| ensures Apart(ds[j], ds[k]) {
      assert j != i && k != i ==> Apart(rs[if j < i then j else j - 1], rs[if k < i then k else k - 1]);
    }
    forall j, k | 0 <= j < |qs| && 0 <= k < |ds| ensures Apart(qs[j], ds[k]) {
      assert k != i ==> Apart(qs[j], rs[if k < i then k else k - 1]);
    }
  }

  // Nothing of the blocks has changed but where their contents begin.
  predicate OnlyRead(before: seq<Block>, after: seq<Block>) {
    |before| == |after| && forall k :: 0 <= k < |after| ==> after[k] == before[k].(readPos := after[k].readPos)
  }

  class ByteBuf {
    var blocks: seq<Block>
    var idx: nat
    var growth: nat
    ghost var regions: seq<Region>    // what memory each block owns
    ghost var chunks: seq<seq<byte>>  // what it holds

    ghost function Footprint(): (r: set<array<byte>>)
      reads this
    {
      Mems(regions)
    }

    ghost predicate Valid()
      reads this, Footprint()
    {
      idx <= |blocks| && AllApart(regions) && Hold(blocks, regions, chunks)
    }

    // The blocks in front of `idx` have been read up.
    ghost predicate Tidy()
      reads this
    {
      ReadAway(chunks, idx)
    }

    // What a reader gets.
    ghost function Contents(): (r: seq<byte>)
      reads this
    {
      From(chunks, idx)
    }

    // What all blocks hold, those in front of `idx` included.
    ghost function Whole(): (r: seq<byte>)
      reads this
    {
      Flat(chunks)
    }

    // The two agree exactly for tidy buffers.
    lemma TidyIffWhole()
      requires Valid()
      ensures Tidy() <==> Contents() == Whole()
      ensures Whole() == Between(chunks, 0, idx) + Contents()
    {
      FromSplits(chunks, 0, idx);
      BetweenEmpty(chunks, 0, idx);
    }

    constructor WithGrowth(growth: nat)
      ensures Valid() && Tidy() && Contents() == [] && blocks == [] && idx == 0 && regions == [] && chunks == []
      ensures this.growth == if growth < 8 then 8 * 1024 else growth
    {
      this.growth := if growth < 8 then 8 * 1024 else growth;
      blocks, regions, chunks, idx := [], [], [], 0;
    }

    constructor Of(blocks: seq<Block>, growth: nat, ghost regions: seq<Region>, ghost chunks: seq<seq<byte>>)
      requires AllApart(regions) && Hold(blocks, regions, chunks)
      ensures Valid() && Tidy() && idx == 0
      ensures this.blocks == blocks && this.growth == growth && this.regions == regions && this.chunks == chunks
    {
      this.blocks, this.growth, this.regions, this.chunks := blocks, growth, regions, chunks;
      idx := 0;
    }

    // From<Vec<u8>>: `len` bytes in a vector of capacity bytes.Length
    constructor FromVec(bytes: array<byte>, len: nat)
      requires len <= bytes.Length
      ensures Valid() && Tidy() && Contents() == bytes[..len] && idx == 0 && growth > 0
      ensures blocks == [Block(bytes, 0, bytes.Length, 0, len)]
    {
      blocks, idx, growth := [Block(bytes, 0, bytes.Length, 0, len)], 0, 8 * 1024;
      regions, chunks := [Region(bytes, 0, bytes.Length)], [bytes[..len]];
      new;
      assert From(chunks, 0) == chunks[0] + From(chunks, 1);
    }

    method Len() returns (n: nat)
      requires Valid()
      ensures n == |Contents()|
    {
      n := 0;
      for i := idx to |blocks|
        invariant n == |Between(chunks, idx, i)|
      {
        n := n + blocks[i].Len();
      }
      FromAll(chunks, idx);
    }

    method IsEmpty() returns (r: bool)
      requires Valid()
      ensures r <==> Contents() == []
    {
      for i := idx to |blocks|
        invariant Between(chunks, idx, i) == []
      {
        if !blocks[i].IsEmpty() {
          FromSplits(chunks, idx, i);
          return false;
        }
      }
      FromAll(chunks, idx);
      r := true;
    }

    // Err leaves in `off` how far the position is past the end.
    method LocateIdx(pos: nat) returns (found: bool, i: nat, off: nat)
      requires Valid()
      ensures found <==> idx < |blocks| && pos <= |Contents()|
      ensures found ==> Located(chunks, idx, pos, i, off)
      ensures !found ==> i == |blocks| && pos == |Contents()| + off
    {
      i, off := idx, pos;
      while i < |blocks|
        invariant idx <= i <= |blocks|
        invariant pos == |Between(chunks, idx, i)| + off && (i > idx ==> off > 0)
      {
        if off <= blocks[i].Len() {
          Around(chunks, idx, i, off);
          return true, i, off;
        }
        off := off - blocks[i].Len();
        i := i + 1;
      }
      FromAll(chunks, idx);
      found := false;
    }

    // as_bytes of block k
    method Piece(k: nat) returns (bytes: seq<byte>)
      requires Valid() && k < |blocks|
      ensures bytes == chunks[k]
    {
      bytes := blocks[k].Bytes();
    }

    // m bytes of block k from its pos-th on.
    method BytesAt(k: nat, pos: nat, m: nat) returns (bytes: seq<byte>)
      requires Valid() && k < |blocks| && pos + m <= |chunks[k]|
      ensures bytes == chunks[k][pos..][..m] && chunks[k][pos..] == bytes + chunks[k][pos + m..]
    {
      hide AllApart;
      var block := blocks[k];
      bytes := block.Range(block.readPos + pos, m);
      RangeJoins(block, block.readPos, pos, m);
      RangeJoins(block, block.readPos, pos + m, block.Len() - pos - m);
      assert block.Bytes() == chunks[k];
    }

    // ---- reading ----

    // Reads the first m bytes of block `idx`.
    method Consume(m: nat) returns (taken: seq<byte>)
      requires Valid() && idx < |blocks| && m <= blocks[idx].Len()
      modifies this`blocks, this`chunks
      ensures Valid() && (old(Tidy()) ==> Tidy())
      ensures old(Contents()) == taken + Contents() && |taken| == m
      ensures taken == old(chunks)[idx][..m] && chunks == old(chunks)[idx := old(chunks)[idx][m..]]
      ensures OnlyRead(old(blocks), blocks)
    {
      ReadFlat(chunks, idx, m);
      var block := blocks[idx];
      taken := block.Range(block.readPos, m);
      RangeJoins(block, block.readPos, m, block.Len() - m);
      HoldSet(blocks, regions, chunks, idx, block.(readPos := block.readPos + m), chunks[idx][m..]);
      blocks := blocks[idx := block.(readPos := block.readPos + m)];
      chunks := chunks[idx := chunks[idx][m..]];
    }

    // Goes on to the next block, when this one is read up.
    method Advance()
      requires Valid() && idx < |blocks| && blocks[idx].IsEmpty()
      modifies this`idx
      ensures Valid() && (old(Tidy()) ==> Tidy()) && Contents() == old(Contents()) && idx == old(idx) + 1
    {
      assert chunks[idx] == [];
      idx := idx + 1;
    }

    // Reads all of block `idx` and goes on to the next one.
    method ReadUp() returns (taken: seq<byte>)
      requires Valid() && idx < |blocks|
      modifies this`blocks, this`chunks, this`idx
      ensures Valid() && (old(Tidy()) ==> Tidy()) && idx == old(idx) + 1 <= |blocks|
      ensures old(Contents()) == taken + Contents() && taken == old(chunks)[old(idx)]
      ensures OnlyRead(old(blocks), blocks)
    {
      taken := Consume(blocks[idx].Len());
      Advance();
    }

    method Skip(n: nat) returns (skipped: nat)
      requires Valid()
      modifies this`idx, this`blocks, this`chunks
      ensures Valid() && (old(Tidy()) ==> Tidy())
      ensures skipped == if n < |old(Contents())| then n else |old(Contents())|
      ensures Contents() == old(Contents())[skipped..] && (n > |old(Contents())| ==> idx == |blocks|)
      ensures OnlyRead(old(blocks), blocks)
    {
      skipped := 0;
      ghost var c, tidy, done := Contents(), Tidy(), [];
      while idx < |blocks|
        invariant Valid() && (tidy ==> Tidy())
        invariant skipped == |done| <= n && c == done + Contents()
        invariant OnlyRead(old(blocks), blocks)
        decreases |regions| - idx
      {
        var m := blocks[idx].Len();
        if skipped + m >= n {
          var taken := Consume(n - skipped);
          Prefix(done, taken, Contents());
          return n;
        }
        var taken := ReadUp();
        Prefix(done, taken, Contents());
        done, skipped := done + taken, skipped + m;
      }
    }

    // Drops the empty blocks in front.
    method Compact()
      requires Valid()
      modifies this`idx, this`blocks, this`regions, this`chunks
      ensures Valid() && Tidy() && Contents() == old(Contents()) && idx == 0
      ensures old(idx) == 0 || blocks == [] || !blocks[0].IsEmpty()
      ensures AllWithin(regions, old(regions))
    {
      hide AllApart, AllWithin, From;
      while idx < |blocks| && blocks[idx].IsEmpty()
        invariant Valid() && Contents() == old(Contents()) && chunks == old(chunks) && regions == old(regions)
        decreases |blocks| - idx
      {
        Advance();
      }
      WithinSelf(regions);
      if idx > 0 {
        DropHold(blocks, regions, chunks, idx);
        blocks, regions, chunks := blocks[idx..], regions[idx..], chunks[idx..];
        idx := 0;
      }
    }

    // ---- cutting and joining ----

    // Cuts the buffer at `off` of block i.
    method CutAt(i: nat, off: nat, ghost at: nat) returns (tail: ByteBuf)
      requires Valid() && Located(chunks, idx, at, i, off)
      modifies this`blocks, this`regions, this`chunks
      ensures Valid() && (old(Tidy()) ==> Tidy()) && idx < |blocks|
      ensures fresh(tail) && tail.Valid() && tail.Tidy() && tail.idx == 0 && (growth > 0 ==> tail.growth > 0)
      ensures old(Contents()) == Contents() + tail.Contents() && |Contents()| == at
      ensures BothApart(regions, tail.regions) && AllWithin(regions, old(regions))
        && AllWithin(tail.regions, old(regions))
    {
      hide AllApart, AllWithin, BothApart, From, Between;
      var (head, rest) := Cut(blocks, i, off);
      ghost var hr, tr, hs, ts := CutUp(blocks, regions, chunks, idx, at, i, off, head, rest);
      if rest != [] {
        tail := new ByteBuf.Of(rest, growth, tr, ts);
      } else {
        tail := new ByteBuf.WithGrowth(growth);
      }
      blocks, regions, chunks := head, hr, hs;
    }

    // The tail shares the allocation of the block that is cut, but no byte of it.
    method SplitOff(at: nat) returns (r: Option<ByteBuf>)
      requires Valid()
      modifies this`blocks, this`regions, this`chunks
      ensures Valid() && (old(Tidy()) ==> Tidy()) && AllWithin(regions, old(regions))
      ensures r.Some? <==> idx < |old(blocks)| && at <= |old(Contents())|
      ensures r.None? ==> blocks == old(blocks) && chunks == old(chunks) && regions == old(regions)
      ensures r.Some? ==> fresh(r.value) && IsCut(old(Contents()), old(regions), at, r.value)
    {
      var found, i, off := LocateIdx(at);
      if !found {
        WithinSelf(regions);
        return None;
      }
      var tail := CutAt(i, off, at);
      r := Some(tail);
    }

    // This buffer and `tail` are what a buffer with these contents and regions was cut into.
    ghost predicate IsCut(c: seq<byte>, rs: seq<Region>, at: nat, tail: ByteBuf)
      reads this, tail, tail.Footprint()
    {
      && tail.Valid() && tail.Tidy() && tail.idx == 0 && idx < |blocks| && (growth > 0 ==> tail.growth > 0)
      && c == Contents() + tail.Contents() && |Contents()| == at
      && BothApart(regions, tail.regions) && AllWithin(tail.regions, rs)
    }

    // mem::swap
    method Swap(other: ByteBuf)
      requires Valid() && other.Valid() && other != this
      modifies this, other
      ensures Valid() && other.Valid()
      ensures Contents() == old(other.Contents()) && other.Contents() == old(Contents())
      ensures (old(Tidy()) ==> other.Tidy()) && (old(other.Tidy()) ==> Tidy())
      ensures idx == old(other.idx) && other.idx == old(idx) && |other.blocks| == |old(blocks)|
      ensures growth == old(other.growth) && other.growth == old(growth)
      ensures regions == old(other.regions) && other.regions == old(regions)
    {
      blocks, other.blocks := other.blocks, blocks;
      idx, other.idx := other.idx, idx;
      growth, other.growth := other.growth, growth;
      regions, other.regions := other.regions, regions;
      chunks, other.chunks := other.chunks, chunks;
    }

    // Cuts the buffer, keeps the tail and returns the head.
    method DrainTo(at: nat) returns (r: Option<ByteBuf>)
      requires Valid()
      modifies this
      ensures r.Some? <==> old(idx < |blocks|) && at <= |old(Contents())|
      ensures r.None? ==> Valid() && (old(Tidy()) ==> Tidy())
      ensures r.None? ==>
        Contents() == old(Contents()) && idx == old(idx) && regions == old(regions) && growth == old(growth)
      ensures r.Some? ==> fresh(r.value) && r.value.Valid() && (old(Tidy()) ==> r.value.Tidy())
      ensures r.Some? ==> r.value.IsCut(old(Contents()), old(regions), at, this)
      ensures r.Some? ==> AllWithin(r.value.regions, old(regions))
    {
      r := SplitOff(at);
      if r.Some? {
        Swap(r.value);
      }
    }

    // Moves the blocks of the other buffer behind those of this one.
    method Extend(other: ByteBuf)
      requires Valid() && other.Valid() && other != this && BothApart(regions, other.regions)
      modifies this`blocks, this`regions, this`chunks, other`blocks, other`regions, other`chunks
      ensures Valid() && (old(Tidy()) ==> Tidy())
      ensures Contents() == old(Contents()) + old(other.Contents())
      ensures AllWithin(regions, old(regions) + old(other.regions))
    {
      var pos := other.idx;
      JoinHold(blocks, regions, chunks, other.blocks, other.regions, other.chunks, idx, pos);
      blocks, other.blocks := blocks + other.blocks[pos..], other.blocks[..pos];
      regions, other.regions := regions + other.regions[pos..], other.regions[..pos];
      chunks, other.chunks := chunks + other.chunks[pos..], other.chunks[..pos];
    }

    // ---- writing ----

    // Moves the positions of block k, after its memory has been written.
    method SetBlock(k: nat, b: Block, ghost c: seq<byte>)
      requires idx <= |blocks| && AllApart(regions) && HoldBut(blocks, regions, chunks, k) && k < |blocks|
      requires b.Ok() && RegionOf(b) == regions[k] && b.Bytes() == c
      modifies this`blocks, this`chunks
      ensures Valid() && blocks == old(blocks)[k := b] && chunks == old(chunks)[k := c]
    {
      HoldSet(blocks, regions, chunks, k, b, c);
      blocks, chunks := blocks[k := b], chunks[k := c];
    }

    // Fills the last block from its write position on; says how much went in.
    method PushBack(src: seq<byte>, ghost o: View) returns (m: nat)
      requires Valid() && blocks != [] && Elsewhere(o, regions)
      modifies this`blocks, this`chunks, blocks[|blocks| - 1].mem
      ensures Valid() && Elsewhere(o, regions) && |blocks| == |old(blocks)|
      ensures m == if |src| < old(blocks[|blocks| - 1]).Appendable() then |src|
        else old(blocks[|blocks| - 1]).Appendable()
      ensures chunks == old(chunks)[|blocks| - 1 := old(chunks)[|blocks| - 1] + src[..m]]
      ensures blocks[..|blocks| - 1] == old(blocks)[..|blocks| - 1]
    {
      var k, b := |blocks| - 1, blocks[|blocks| - 1];
      m := if |src| < b.Appendable() then |src| else b.Appendable();
      b := WriteAfter(blocks, regions, chunks, k, src[..m], o);
      SetBlock(k, b, chunks[k] + src[..m]);
    }

    // Fills the first block from its read position backwards with the end of `src`.
    method PushFront(src: seq<byte>, ghost o: View) returns (m: nat)
      requires Valid() && blocks != [] && Elsewhere(o, regions)
      modifies this`blocks, this`chunks, blocks[0].mem
      ensures Valid() && Elsewhere(o, regions) && |blocks| == |old(blocks)|
      ensures m == if |src| < old(blocks[0].readPos) then |src| else old(blocks[0].readPos)
      ensures chunks == old(chunks)[0 := src[|src| - m..] + old(chunks)[0]]
      ensures blocks[1..] == old(blocks)[1..]
    {
      var b := blocks[0];
      m := if |src| < b.readPos then |src| else b.readPos;
      b := WriteBefore(blocks, regions, chunks, 0, src[|src| - m..], o);
      SetBlock(0, b, src[|src| - m..] + chunks[0]);
    }

    // Writes over what block k holds.
    method Overwrite(k: nat, pos: nat, src: seq<byte>, ghost o: View)
      requires Valid() && k < |blocks| && pos + |src| <= |chunks[k]| && Elsewhere(o, regions)
      modifies this`blocks, this`chunks, blocks[k].mem
      ensures Valid() && Elsewhere(o, regions) && blocks == old(blocks)
      ensures chunks == old(chunks)[k := Over(old(chunks)[k], pos, src)]
    {
      WriteOver(blocks, regions, chunks, k, pos, src, o);
      SetBlock(k, blocks[k], Over(chunks[k], pos, src));
    }

    // ---- new blocks ----

    // A block in memory of its own is put in at position i.
    method InsertBlock(i: nat, b: Block, ghost o: View)
      requires Valid() && Elsewhere(o, regions) && i <= |blocks| && b.Ok()
      requires b.mem !in Footprint() && b.mem !in Mems(o.rs)
      modifies this`blocks, this`regions, this`chunks
      ensures Valid() && Elsewhere(o, regions) && blocks == Inserted(old(blocks), i, b)
      ensures chunks == Inserted(old(chunks), i, b.Bytes()) && regions == Inserted(old(regions), i, RegionOf(b))
      ensures Footprint() == old(Footprint()) + {b.mem}
    {
      hide AllApart, BothApart;
      InsertHold(blocks, regions, chunks, i, b, b.Bytes());
      InsertRegions(regions, o.rs, i, RegionOf(b));
      InsertMems(regions, i, RegionOf(b));
      blocks, regions, chunks := Inserted(blocks, i, b), Inserted(regions, i, RegionOf(b)),
        Inserted(chunks, i, b.Bytes());
    }

    method AppendBlock(minCapacity: nat, ghost o: View)
      requires Valid() && Elsewhere(o, regions)
      modifies this`blocks, this`regions, this`chunks
      ensures Valid() && Elsewhere(o, regions) && |blocks| == |old(blocks)| + 1
        && blocks[..|old(blocks)|] == old(blocks)
      ensures blocks[|old(blocks)|].Appendable() == if minCapacity <= growth then growth else minCapacity
      ensures chunks == old(chunks) + [[]] && fresh(Footprint() - old(Footprint()))
    {
      var cap := if minCapacity <= growth then growth else minCapacity;
      var mem := new byte[cap];
      InsertedEnds(blocks, Block(mem, 0, cap, 0, 0));
      InsertedEnds(chunks, []);
      InsertBlock(|blocks|, Block(mem, 0, cap, 0, 0), o);
    }

    method PrependBlock(minCapacity: nat, ghost o: View)
      requires Valid() && Elsewhere(o, regions)
      modifies this`blocks, this`regions, this`chunks
      ensures Valid() && Elsewhere(o, regions) && |blocks| == |old(blocks)| + 1 && blocks[1..] == old(blocks)
      ensures blocks[0].readPos == if minCapacity <= growth then growth else minCapacity
      ensures chunks == [[]] + old(chunks) && fresh(Footprint() - old(Footprint()))
    {
      var cap := if minCapacity <= growth then growth else minCapacity;
      var mem := new byte[cap];
      InsertedEnds(blocks, Block(mem, 0, cap, cap, cap));
      InsertedEnds(chunks, []);
      InsertBlock(0, Block(mem, 0, cap, cap, cap), o);
    }

    // ---- whole vectors ----

    // Block k is split in place.
    method Divide(k: nat, at: nat, ghost o: View)
      requires Valid() && Elsewhere(o, regions) && k < |blocks| && at <= blocks[k].Len()
      modifies this`blocks, this`regions, this`chunks
      ensures Valid() && Elsewhere(o, regions) && |blocks| == |old(blocks)| + 1
      ensures chunks == Divided(old(chunks), k, old(chunks)[k][..at], old(chunks)[k][at..])
      ensures Footprint() == old(Footprint())
    {
      var (l, r) := blocks[k].SplitOff(at);
      SplitOffDivides(blocks[k], at);
      DivideHold(blocks, regions, chunks, k, at);
      DivideRegions(regions, o.rs, k, RegionOf(l), RegionOf(r));
      DivideMems(regions, k, RegionOf(l), RegionOf(r));
      blocks, regions := Divided(blocks, k, l, r), Divided(regions, k, RegionOf(l), RegionOf(r));
      chunks := Divided(chunks, k, chunks[k][..at], chunks[k][at..]);
    }

    // Block::from(bytes), for a vector that nobody else holds, put in at position i.
    method InsertVec(i: nat, bytes: array<byte>, len: nat, ghost o: View)
      requires Valid() && Elsewhere(o, regions) && i <= |blocks| && len <= bytes.Length
      requires bytes !in Footprint() && bytes !in Mems(o.rs)
      modifies this`blocks, this`regions, this`chunks
      ensures Valid() && Elsewhere(o, regions) && |blocks| == |old(blocks)| + 1
      ensures chunks == Inserted(old(chunks), i, bytes[..len])
      ensures Footprint() == old(Footprint()) + {bytes}
    {
      InsertBlock(i, Block(bytes, 0, bytes.Length, 0, len), o);
    }
  }
}
