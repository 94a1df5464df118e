// src/buf/codec/u64/varint.rs, and u32 and u16, which are the same at another width: a number as seven-bit groups.
module Varints {
  import opened Bits
  import opened Slabs
  import opened Flats
  import opened Blocks
  import opened ByteBufs
  import opened U8s
  import opened Leb

  // ---- reading ----

  // None of these bytes is the last one of a number.
  ghost predicate Unfinished(bs: seq<byte>) {
    forall i :: 0 <= i < |bs| ==> bs[i] >= 128
  }

  // u32::wrapping_add(7)
  function NextShift(shift: nat): (r: nat) {
    (shift + 7) % 0x1_0000_0000
  }

  // The word after some bytes, and the shift for the next one.
  ghost predicate Gathering(taken: seq<byte>, w: nat, v: nat, shift: nat) {
    Width(w) && Unfinished(taken) && v == Gathered(taken, w) && shift == 7 * |taken| % 0x1_0000_0000
  }

  lemma GatherOne(taken: seq<byte>, w: nat, v: nat, shift: nat, b: byte)
    requires Gathering(taken, w, v, shift)
    ensures var v' := Or(v, Shl(And(b, 0x7F), shift, w));
      if b < 128 then Terminated(taken + [b]) && v' == Gathered(taken + [b], w)
      else Gathering(taken + [b], w, v', NextShift(shift))
  {
    hide And, Or, LowBits, Doubled, Distance;
    var t, n := taken + [b], 7 * |taken|;
    assert t[..|t| - 1] == taken;
    SameDistance(n, w);
    AddMod(n, 7, 0x1_0000_0000);
  }

  // The distance does not depend on whether the counter has wrapped around.
  lemma SameDistance(n: nat, w: nat)
    requires Width(w)
    ensures Distance(n % 0x1_0000_0000, w) == Distance(n, w)
  {
    WrapMod(n, w, if w == 16 then 0x1000_0000 else if w == 32 then 0x800_0000 else 0x400_0000);
  }

  lemma WrapMod(a: nat, w: nat, k: nat)
    requires w > 0 && k > 0 && w * k == 0x1_0000_0000
    ensures a % 0x1_0000_0000 % w == a % w
  {
    var q, r := a / 0x1_0000_0000, a % 0x1_0000_0000;
    assert a == q * (w * k) + r == (q * k) * w + r;
    AddMod(0, r, w);
    ModUnique(a, w, q * k + r / w, r % w);
  }

  lemma AddMod(s: nat, c: nat, w: nat)
    requires w > 0
    ensures (s + c) % w == (s % w + c) % w
  {
    var q, d := s / w, s % w + c;
    assert s + c == q * w + d;
    assert d == d / w * w + d % w;
    ModUnique(s + c, w, q + d / w, d % w);
  }

  // The loop over the bytes of one block.
  method Scan(bytes: seq<byte>, w: nat, v0: nat, shift0: nat, ghost taken: seq<byte>)
    returns (found: bool, pos: nat, v: nat, shift: nat)
    requires Gathering(taken, w, v0, shift0)
    ensures found ==>
      pos < |bytes| && Terminated(taken + bytes[..pos + 1]) && v == Gathered(taken + bytes[..pos + 1], w)
    ensures !found ==> Gathering(taken + bytes, w, v, shift)
  {
    hide Gathering, Gathered, Terminated, Or, And, Shl;
    v, shift := v0, shift0;
    pos := 0;
    assert taken + bytes[..0] == taken;
    while pos < |bytes|
      invariant pos <= |bytes| && Gathering(taken + bytes[..pos], w, v, shift)
    {
      var b := bytes[pos];
      GatherOne(taken + bytes[..pos], w, v, shift, b);
      assert taken + bytes[..pos + 1] == taken + bytes[..pos] + [b];
      WidthOf(taken + bytes[..pos], w, v, shift);
      v := Or(v, Shl(And(b, 0x7F), shift, w));
      if b < 128 { return true, pos, v, shift; }
      shift := NextShift(shift);
      pos := pos + 1;
    }
    assert bytes[..pos] == bytes;
    found := false;
  }

  lemma WidthOf(taken: seq<byte>, w: nat, v: nat, shift: nat)
    requires Gathering(taken, w, v, shift)
    ensures Width(w) && Unfinished(taken)
  {
  }

  method ReadBlock(buf: ByteBuf, w: nat, v0: nat, shift0: nat, ghost taken: seq<byte>)
    returns (found: bool, v: nat, shift: nat, ghost read: seq<byte>)
    requires buf.Valid() && buf.idx < |buf.blocks| && buf.blocks[buf.idx].Len() > 0 && Gathering(taken, w, v0, shift0)
    modifies buf`blocks, buf`chunks
    ensures buf.Valid() && (old(buf.Tidy()) ==> buf.Tidy()) && |buf.blocks| == |old(buf.blocks)|
    ensures old(buf.Contents()) == read + buf.Contents() && read != []
    ensures if found then Terminated(taken + read) && v == Gathered(taken + read, w)
      else Gathering(taken + read, w, v, shift)
  {
    hide Gathering, Gathered, Terminated;
    var bytes := buf.Piece(buf.idx);
    var pos;
    WidthOf(taken, w, v0, shift0);
    found, pos, v, shift := Scan(bytes, w, v0, shift0, taken);
    assert bytes[..|bytes|] == bytes;
    read := buf.Consume(if found then pos + 1 else |bytes|);
  }

  // What was put in front by an encoder is read, and no more.
  ghost predicate ReadsBack(c: seq<byte>, r: Option<nat>, left: seq<byte>, w: nat) {
    forall v: nat, rest: seq<byte> :: v < Pow2(w) && c == Encode(v) + rest ==> r == Some(v) && left == rest
  }

  lemma NotUnfinished(taken: seq<byte>, v: nat, rest: seq<byte>)
    requires taken == Encode(v) + rest
    ensures !Unfinished(taken)
  {
    EncodeStandsFor(v);
    assert taken[|Encode(v)| - 1] < 128;
  }

  lemma ReadIsBack(taken: seq<byte>, left: seq<byte>, r: Option<nat>, w: nat)
    requires Width(w)
    requires if r.Some? then Terminated(taken) && r.value == Gathered(taken, w) else Unfinished(taken) && left == []
    ensures ReadsBack(taken + left, r, left, w)
  {
    forall v: nat, rest: seq<byte> | v < Pow2(w) && taken + left == Encode(v) + rest
      ensures r == Some(v) && left == rest {
      EncodeStandsFor(v);
      if r.Some? {
        GathersBack(taken, left, v, rest, w);
      } else {
        assert taken + [] == taken;
        NotUnfinished(taken, v, rest);
      }
    }
  }

  // Reads up to the first byte with the high bit clear; if there is none, everything is read up. Whatever blocks
  // the bytes lie in, an encoded number is read back, and what follows it is left.
  method Read(buf: ByteBuf, w: nat) returns (r: Option<nat>, ghost taken: seq<byte>)
    requires buf.Valid() && Width(w)
    modifies buf`idx, buf`blocks, buf`chunks
    ensures buf.Valid() && (old(buf.Tidy()) ==> buf.Tidy())
    ensures old(buf.Contents()) == taken + buf.Contents()
    ensures r.Some? ==> Terminated(taken) && r.value == Gathered(taken, w) && buf.idx < |buf.blocks|
    ensures r.None? ==> Unfinished(taken) && buf.Contents() == []
    ensures ReadsBack(old(buf.Contents()), r, buf.Contents(), w)
  {
    hide ReadsBack, Gathering, Gathered, Terminated;
    taken := [];
    var v: nat, shift: nat := 0, 0;
    GatherNothing(w);
    while true
      invariant buf.Valid() && (old(buf.Tidy()) ==> buf.Tidy())
      invariant Gathering(taken, w, v, shift) && old(buf.Contents()) == taken + buf.Contents()
      decreases |buf.Contents()|
    {
      var more := NextBlock(buf);
      if !more {
        WidthOf(taken, w, v, shift);
        ReadIsBack(taken, buf.Contents(), None, w);
        return None, taken;
      }
      var found;
      ghost var read;
      found, v, shift, read := ReadBlock(buf, w, v, shift, taken);
      Prefix(taken, read, buf.Contents());
      taken := taken + read;
      if found {
        ReadIsBack(taken, buf.Contents(), Some(v), w);
        return Some(v), taken;
      }
    }
  }

  lemma GatherNothing(w: nat)
    requires Width(w)
    ensures Gathering([], w, 0, 0)
  {
  }

  // What has been taken of `d` ends at position `off` of piece k.
  ghost predicate GetAt(cs: seq<seq<byte>>, k: nat, off: nat, d: seq<byte>, taken: seq<byte>) {
    k <= |cs| && (k < |cs| ==> off <= |cs[k]|) && d == taken + Rest(cs, k, off)
  }

  lemma GetStep(cs: seq<seq<byte>>, k: nat, off: nat, d: seq<byte>, taken: seq<byte>, bytes: seq<byte>, n: nat)
    returns (left: seq<byte>)
    requires GetAt(cs, k, off, d, taken) && k < |cs| && bytes == cs[k][off..] && n <= |bytes|
    ensures d == (taken + bytes[..n]) + left
    ensures n == |bytes| ==> GetAt(cs, k + 1, 0, d, taken + bytes)
  {
    left := bytes[n..] + From(cs, k + 1);
    Regroup3(taken, bytes, n, From(cs, k + 1));
    assert Rest(cs, k + 1, 0) == From(cs, k + 1);
  }

  lemma Regroup3(a: seq<byte>, b: seq<byte>, n: nat, c: seq<byte>)
    requires n <= |b|
    ensures a + (b + c) == (a + b[..n]) + (b[n..] + c)
    ensures n == |b| ==> a + (b + c) == (a + b) + c
  {
  }

  lemma GetStarts(cs: seq<seq<byte>>, k: nat, off: nat)
    requires k <= |cs| && (k < |cs| ==> off <= |cs[k]|)
    ensures GetAt(cs, k, off, Rest(cs, k, off), [])
  {
  }

  lemma GetEnds(cs: seq<seq<byte>>, k: nat, off: nat, d: seq<byte>, taken: seq<byte>)
    requires GetAt(cs, k, off, d, taken)
    ensures k < |cs| ==> off <= |cs[k]|
    ensures k >= |cs| ==> d == taken + []
  {
  }

  // From position `off` of block i on
  method GetFrom(buf: ByteBuf, i: nat, off0: nat, w: nat)
    returns (r: Option<nat>, ghost taken: seq<byte>, ghost left: seq<byte>)
    requires buf.Valid() && Width(w) && i <= |buf.chunks| && (i < |buf.chunks| ==> off0 <= |buf.chunks[i]|)
    ensures Rest(buf.chunks, i, off0) == taken + left
    ensures if r.Some? then Terminated(taken) && r.value == Gathered(taken, w) else Unfinished(taken) && left == []
  {
    hide Gathering, Gathered, Terminated, GetAt, Rest, From;
    ghost var d := Rest(buf.chunks, i, off0);
    var v: nat, shift: nat, k: nat, off: nat := 0, 0, i, off0;
    taken := [];
    GatherNothing(w);
    GetStarts(buf.chunks, i, off0);
    while k < |buf.blocks|
      invariant k <= |buf.blocks| && GetAt(buf.chunks, k, off, d, taken) && Gathering(taken, w, v, shift)
    {
      GetEnds(buf.chunks, k, off, d, taken);
      WidthOf(taken, w, v, shift);
      var bytes := buf.Piece(k);
      bytes := bytes[off..];
      var last, p;
      last, p, v, shift := Scan(bytes, w, v, shift, taken);
      left := GetStep(buf.chunks, k, off, d, taken, bytes, if last then p + 1 else |bytes|);
      if last { return Some(v), taken + bytes[..p + 1], left; }
      taken, k, off := taken + bytes, k + 1, 0;
    }
    WidthOf(taken, w, v, shift);
    GetEnds(buf.chunks, k, off, d, taken);
    r, left := None, [];
  }

  // The same, with nothing consumed. A position outside of the contents is a panic.
  method Get(buf: ByteBuf, index: nat, w: nat) returns (r: Got<nat>, ghost taken: seq<byte>, ghost left: seq<byte>)
    requires buf.Valid() && Width(w)
    ensures r.Panic? <==> !(buf.idx < |buf.blocks| && index <= |buf.Contents()|)
    ensures !r.Panic? ==> buf.Contents()[index..] == taken + left
    ensures r.Got? ==> Terminated(taken) && r.value == Gathered(taken, w)
    ensures r.OutOfBounds? ==> Unfinished(taken) && left == []
    ensures !r.Panic? ==> ReadsBack(buf.Contents()[index..], if r.Got? then Some(r.value) else None, left, w)
  {
    taken, left := [], [];
    var found, k, off := buf.LocateIdx(index);
    if !found { return Panic, [], []; }
    RestAt(buf.chunks, buf.idx, index, k, off);
    var v;
    v, taken, left := GetFrom(buf, k, off, w);
    ReadIsBack(taken, left, v, w);
    r := match v case None => OutOfBounds case Some(x) => Got(x);
  }

  // ---- append ----

  // Some groups of `v`, the low ones first: all of them, or as many as there is room for. (`v & !0x7F` is 0 for one
  // group, `(v | 0x80) as u8` is the low group with the high bit set, and `v >> 7` what is left.)
  method Groups(v0: nat, room: nat) returns (bytes: seq<byte>, v: nat, done: bool)
    ensures |bytes| <= room
    ensures if done then bytes == Encode(v0) else |bytes| == room && Encode(v0) == bytes + Encode(v)
  {
    hide Encode;
    bytes, v := [], v0;
    assert [] + Encode(v0) == Encode(v0);
    while |bytes| < room
      invariant |bytes| <= room && Encode(v0) == bytes + Encode(v)
    {
      GroupStep(bytes, v);
      if v / 128 == 0 { return bytes + [v], v, true; }
      bytes, v := bytes + [v % 128 + 128], v / 128;
    }
    done := false;
  }

  lemma GroupStep(bytes: seq<byte>, v: nat)
    ensures bytes + Encode(v) == if v / 128 == 0 then bytes + [v] else (bytes + [v % 128 + 128]) + Encode(v / 128)
  {
  }

  lemma Part(e: seq<byte>, bytes: seq<byte>, rest: seq<byte>)
    requires e == bytes + rest
    ensures e[..|bytes|] == bytes && e[|bytes|..] == rest
  {
  }

  // What fits goes into the last block.
  method FillGroups(buf: ByteBuf, v: nat, ghost o: View) returns (m: nat, v': nat, done: bool)
    requires buf.Valid() && buf.blocks != [] && Elsewhere(o, buf.regions)
    modifies buf`blocks, buf`chunks, buf.blocks[|buf.blocks| - 1].mem
    ensures buf.Valid() && Elsewhere(o, buf.regions) && |buf.blocks| == |old(buf.blocks)|
    ensures m == Min(|Encode(v)|, old(Room(buf))) && (done <==> m == |Encode(v)|)
      && (!done ==> Encode(v') == Encode(v)[m..])
    ensures buf.Whole() == old(buf.Whole()) + Encode(v)[..m]
    ensures buf.idx < |buf.blocks| ==>
      buf.Contents() == old(buf.Contents()) + Encode(v)[..m] && buf.Tidy() == old(buf.Tidy())
    ensures buf.idx == |buf.blocks| && old(buf.Tidy()) ==> (buf.Tidy() <==> m == 0)
  {
    var bytes;
    bytes, v', done := Groups(v, buf.blocks[|buf.blocks| - 1].Appendable());
    Part(Encode(v), bytes, if done then [] else Encode(v'));
    assert bytes + [] == bytes && bytes[..|bytes|] == bytes;
    m := FillLast(buf, bytes, o);
  }

  // One round: if something is left, there is a new block for it.
  method AppendRound(buf: ByteBuf, v: nat, ghost o: View) returns (m: nat, v': nat, more: bool)
    requires buf.Valid() && buf.growth > 0 && Elsewhere(o, buf.regions)
    modifies buf`blocks, buf`regions, buf`chunks, buf.Footprint()
    ensures buf.Valid() && Elsewhere(o, buf.regions) && m <= |Encode(v)|
    ensures fresh(buf.Footprint() - old(buf.Footprint()))
    ensures m == if old(buf.blocks) == [] then 0 else Min(|Encode(v)|, old(Room(buf)))
    ensures if more then HasRoom(buf) && Encode(v') == Encode(v)[m..] else m == |Encode(v)|
    ensures old(HasRoom(buf)) ==> m > 0 || !more
    ensures buf.Whole() == old(buf.Whole()) + Encode(v)[..m]
    ensures old(Reachable(buf)) ==>
      buf.Contents() == old(buf.Contents()) + Encode(v)[..m] && buf.Tidy() == old(buf.Tidy())
    ensures !old(Reachable(buf)) && old(buf.Tidy()) ==> (buf.Tidy() <==> m == 0)
  {
    hide AllApart, BothApart, From, ReadAway, Encode;
    m, v' := 0, v;
    if buf.blocks != [] {
      var done;
      m, v', done := FillGroups(buf, v, o);
      if done { return m, v', false; }
    }
    NewLast(buf, o);
    more := true;
  }

  // The rounds after the first find a new last block.
  method AppendOn(buf: ByteBuf, v0: nat, ghost o: View) returns (n: nat)
    requires buf.Valid() && Elsewhere(o, buf.regions) && buf.growth > 0
    requires HasRoom(buf)
    modifies buf`blocks, buf`regions, buf`chunks, buf.Footprint()
    ensures buf.Valid() && Elsewhere(o, buf.regions)
    ensures fresh(buf.Footprint() - old(buf.Footprint()))
    ensures buf.Whole() == old(buf.Whole()) + Encode(v0) && buf.Contents() == old(buf.Contents()) + Encode(v0)
    ensures buf.Tidy() == old(buf.Tidy()) && n == |Encode(v0)|
  {
    hide Encode, AllApart, BothApart, From, ReadAway;
    n := 0;
    ghost var whole, c, tidy := buf.Whole() + Encode(v0), buf.Contents() + Encode(v0), buf.Tidy();
    var v, m, more := v0, 0, true;
    while more
      invariant buf.Valid() && Elsewhere(o, buf.regions)
      invariant fresh(buf.Footprint() - old(buf.Footprint()))
      invariant more ==> HasRoom(buf) && buf.Whole() + Encode(v) == whole && buf.Contents() + Encode(v) == c
      invariant !more ==> buf.Whole() == whole && buf.Contents() == c
      invariant buf.Tidy() == tidy && n + (if more then |Encode(v)| else 0) == |Encode(v0)|
      decreases if more then |Encode(v)| + 1 else 0
    {
      ghost var w, d, e := buf.Whole(), buf.Contents(), Encode(v);
      m, v, more := AppendRound(buf, v, o);
      Split(w, e, m);
      Split(d, e, m);
      n := n + m;
    }
  }

  // The groups go in with the low one first; otherwise this is what u8s::append does with them.
  method Append(buf: ByteBuf, v: nat, ghost o: View) returns (n: nat)
    requires buf.Valid() && buf.growth > 0 && Elsewhere(o, buf.regions)
    modifies buf`blocks, buf`regions, buf`chunks, buf.Footprint()
    ensures buf.Valid() && n == |Encode(v)| && Elsewhere(o, buf.regions)
    ensures fresh(buf.Footprint() - old(buf.Footprint()))
    ensures buf.Whole() == old(buf.Whole()) + Encode(v)
    ensures old(Reachable(buf)) ==> buf.Contents() == old(buf.Contents()) + Encode(v) && buf.Tidy() == old(buf.Tidy())
    ensures !old(Reachable(buf)) && old(buf.Tidy()) ==> (buf.Tidy() <==> old(Room(buf)) == 0)
  {
    hide Encode, HasRoom, Elsewhere, From;
    ghost var whole, c, e := buf.Whole(), buf.Contents(), Encode(v);
    var rest, more;
    n, rest, more := AppendRound(buf, v, o);
    Split(whole, e, n);
    Split(c, e, n);
    if more {
      var m := AppendOn(buf, rest, o);
      n := n + m;
    }
  }

  // ---- set ----

  // What block k takes of the groups of v that are left, which are those of `e` behind the n-th.
  method SetRound(buf: ByteBuf, k: nat, pos: nat, v: nat, ghost e: seq<byte>, n: nat, ghost front: seq<byte>,
    ghost tail: seq<byte>, ghost o: View)
    returns (last: bool, v': nat, m: nat)
    requires buf.Valid() && Elsewhere(o, buf.regions) && k < |buf.blocks|
    requires SetTo(buf.chunks, buf.idx, k, pos, front, tail, e, n) && n <= |e| && Encode(v) == e[n..]
    modifies buf`blocks, buf`chunks, buf.blocks[k].mem
    ensures buf.Valid() && Elsewhere(o, buf.regions) && buf.blocks == old(buf.blocks)
    ensures last ==> m == |e| <= |tail| && buf.Contents() == (front + e) + tail[|e|..]
    ensures !last ==> SetTo(buf.chunks, buf.idx, k + 1, 0, front, tail, e, m) && m < |e| && Encode(v') == e[m..]
  {
    hide Before, Rest, AllApart, From, Between, Encode;
    var bytes;
    bytes, v', last := Groups(v, buf.blocks[k].Len() - pos);
    GroupsLeft(e, n, bytes, if last then [] else Encode(v'));
    if last {
      assert bytes + [] == bytes;
      SetLast(buf, k, pos, bytes, e, n, front, tail, o);
    } else {
      SetAll(buf, k, pos, bytes, e, n, front, tail, o);
    }
    m := n + |bytes|;
  }

  lemma GroupsLeft(e: seq<byte>, n: nat, bytes: seq<byte>, rest: seq<byte>)
    requires n <= |e|
    ensures e[n..] == bytes + rest ==> n + |bytes| <= |e| && bytes == e[n..][..|bytes|] && rest == e[n + |bytes|..]
    ensures e[n..] == bytes ==> n + |bytes| == |e|
  {
  }

  // Writes the groups over the bytes from position `index` on; if these do not suffice, over all of them with what
  // fits, and the result is an error.
  method Set(buf: ByteBuf, index: nat, v0: nat, ghost o: View) returns (r: Got<nat>)
    requires buf.Valid() && Elsewhere(o, buf.regions)
    modifies buf`blocks, buf`chunks, buf.Footprint()
    ensures buf.Valid() && Elsewhere(o, buf.regions) && buf.blocks == old(buf.blocks)
    ensures r.Panic? <==> !(buf.idx < |buf.blocks| && index <= |old(buf.Contents())|)
    ensures r.Panic? ==> buf.chunks == old(buf.chunks)
    ensures !r.Panic? ==> Replaced(old(buf.Contents()), buf.Contents(), index, Encode(v0))
    ensures r.Got? ==> r.value == |Encode(v0)|
    ensures !r.Panic? ==> (r.Got? <==> index + |Encode(v0)| <= |old(buf.Contents())|)
  {
    var found, i, off := buf.LocateIdx(index);
    if !found { return Panic; }
    ghost var c, front, tail, e := buf.Contents(), Before(buf.chunks, buf.idx, i, off), Rest(buf.chunks, i, off),
      Encode(v0);
    BeforeAndRest(buf.chunks, buf.idx, i, off);
    assert front + e[..0] == front;
    var ok, n := SetFrom(buf, i, off, v0, front, tail, o);
    ReplacedBy(c, buf.Contents(), front, tail, e, n);
    r := if ok then Got(n) else OutOfBounds;
  }

  method SetFrom(buf: ByteBuf, i: nat, off: nat, v0: nat, ghost front: seq<byte>, ghost tail: seq<byte>, ghost o: View)
    returns (ok: bool, n: nat)
    requires buf.Valid() && Elsewhere(o, buf.regions) && i < |buf.blocks|
      && SetTo(buf.chunks, buf.idx, i, off, front, tail, Encode(v0), 0)
    modifies buf`blocks, buf`chunks, buf.Footprint()
    ensures buf.Valid() && Elsewhere(o, buf.regions) && buf.blocks == old(buf.blocks)
    ensures n <= |tail| && n <= |Encode(v0)| && buf.Contents() == (front + Encode(v0)[..n]) + tail[n..]
    ensures n == if ok then |Encode(v0)| else |tail|
    ensures ok <==> |Encode(v0)| <= |tail|
  {
    hide AllApart, From, SetTo, Encode;
    ghost var e := Encode(v0);
    n := 0;
    var k: nat, pos: nat, v := i, off, v0;
    while k < |buf.blocks|
      invariant buf.Valid() && Elsewhere(o, buf.regions) && buf.blocks == old(buf.blocks)
      invariant k <= |buf.blocks| && SetTo(buf.chunks, buf.idx, k, pos, front, tail, e, n)
      invariant n < |e| && Encode(v) == e[n..]
      decreases |buf.blocks| - k
    {
      ok, v, n := SetRound(buf, k, pos, v, e, n, front, tail, o);
      if ok {
        assert e[..n] == e;
        return;
      }
      k, pos := k + 1, 0;
    }
    SetToEnds(buf.chunks, buf.idx, k, pos, front, tail, e, n);
    ok := false;
  }

  // ---- prepend ----

  // Group k of v is the next one to be written, in front of those behind it; `flag` says there are some.
  ghost predicate NextGroup(v: nat, k: nat, shift: nat, flag: bool) {
    k < |Encode(v)| && shift == 7 * k && (flag <==> k < |Encode(v)| - 1)
  }

  lemma GroupAt(v: nat, k: nat)
    requires k < |Encode(v)|
    ensures k < |Encode(v)| - 1 <==> Shr(v, 7 * k) > 0x7F
    ensures Encode(v)[k] == if k < |Encode(v)| - 1 then Shr(v, 7 * k) % 128 + 128 else Shr(v, 7 * k)
    ensures Encode(v)[..k + 1] == Encode(v)[..k] + [Encode(v)[k]]
  {
    EncodeFrom(v, k);
    assert Encode(v)[k] == Encode(v)[k..][0];
    assert |Encode(v)[k..]| == |Encode(v)| - k;
  }

  // The shift that leaves nothing but the highest group.
  method TopShift(v: nat) returns (shift: nat, ghost k: nat)
    ensures NextGroup(v, k, shift, false) && k == |Encode(v)| - 1
  {
    shift, k := 0, 0;
    GroupAt(v, 0);
    while Shr(v, shift) > 0x7F
      invariant k < |Encode(v)| && shift == 7 * k && (k < |Encode(v)| - 1 <==> Shr(v, shift) > 0x7F)
      decreases |Encode(v)| - k
    {
      shift, k := shift + 7, k + 1;
      GroupAt(v, k);
    }
  }

  // Groups from the k-th down to the lowest, as far as there is room for them.
  method GroupsBack(v: nat, ghost k0: nat, shift0: nat, flag0: bool, room: nat)
    returns (bytes: seq<byte>, ghost k: nat, shift: nat, flag: bool, done: bool)
    requires NextGroup(v, k0, shift0, flag0)
    ensures |bytes| <= room
    ensures if done then bytes == Encode(v)[..k0 + 1]
      else |bytes| == room && NextGroup(v, k, shift, flag) && Encode(v)[..k0 + 1] == Encode(v)[..k + 1] + bytes
  {
    hide Encode, Shr;
    bytes, k, shift, flag := [], k0, shift0, flag0;
    while |bytes| < room
      invariant |bytes| <= room && NextGroup(v, k, shift, flag) && Encode(v)[..k0 + 1] == Encode(v)[..k + 1] + bytes
    {
      GroupAt(v, k);
      var b: byte := if flag then Shr(v, shift) % 128 + 128 else Shr(v, shift);
      Regroup(Encode(v)[..k], b, bytes);
      bytes := [b] + bytes;
      if shift == 0 { return bytes, k, shift, flag, true; }
      flag, shift, k := true, shift - 7, k - 1;
    }
    done := false;
  }

  lemma Regroup(a: seq<byte>, b: byte, c: seq<byte>)
    ensures (a + [b]) + c == a + ([b] + c)
    ensures a == [] ==> a + ([b] + c) == [b] + c
  {
  }

  lemma LastPart(e: seq<byte>, rest: seq<byte>, bytes: seq<byte>)
    requires e == rest + bytes
    ensures e[|e| - |bytes|..] == bytes && e[..|e| - |bytes|] == rest
  {
  }

  // What fits goes in front of what the first block holds.
  method FillGroupsBack(buf: ByteBuf, v: nat, ghost k: nat, shift: nat, flag: bool, ghost o: View)
    returns (m: nat, ghost k': nat, shift': nat, flag': bool, done: bool)
    requires buf.Valid() && buf.blocks != [] && Elsewhere(o, buf.regions) && NextGroup(v, k, shift, flag)
      && k < |Encode(v)|
    modifies buf`blocks, buf`chunks, buf.blocks[0].mem
    ensures buf.Valid() && Elsewhere(o, buf.regions) && |buf.blocks| == |old(buf.blocks)|
    ensures if done then m == k + 1 else m <= k && k' == k - m && NextGroup(v, k', shift', flag')
    ensures old(HasRoomBefore(buf)) ==> m > 0
    ensures buf.Whole() == Encode(v)[k + 1 - m..k + 1] + old(buf.Whole())
    ensures done ==> buf.chunks[0] != []
  {
    hide Encode, NextGroup, From;
    var bytes;
    bytes, k', shift', flag', done := GroupsBack(v, k, shift, flag, buf.blocks[0].Prependable());
    if !done { NextGroupIn(v, k', shift', flag'); }
    BackPart(Encode(v), k, bytes, if done then -1 else k');
    m := FillFirst(buf, bytes, o);
  }

  lemma NextGroupIn(v: nat, k: nat, shift: nat, flag: bool)
    requires NextGroup(v, k, shift, flag)
    ensures k < |Encode(v)|
  {
  }

  // The groups behind the k'-th, up to the k-th, are `bytes`.
  lemma BackPart(e: seq<byte>, k: nat, bytes: seq<byte>, k': int)
    requires -1 <= k' < |e| && k < |e|
    requires e[..k + 1] == (if k' >= 0 then e[..k' + 1] + bytes else bytes)
    ensures k - k' == |bytes| && bytes[0..] == bytes && e[k + 1 - |bytes|..k + 1] == bytes
  {
    var front := if k' >= 0 then e[..k' + 1] else [];
    LastPart(e[..k + 1], front, bytes);
    assert |e[..k + 1]| == |front| + |bytes|;
    InnerSlice(e, k' + 1, k + 1);
  }

  lemma InnerSlice(e: seq<byte>, i: nat, j: nat)
    requires i <= j <= |e|
    ensures e[..j][i..] == e[i..j]
  {
  }

  // If something is left, there is a new first block for it.
  method PrependRound(buf: ByteBuf, v: nat, ghost k: nat, shift: nat, flag: bool, ghost o: View)
    returns (m: nat, ghost k': nat, shift': nat, flag': bool, more: bool)
    requires buf.Valid() && buf.growth > 0 && Elsewhere(o, buf.regions) && NextGroup(v, k, shift, flag)
      && k < |Encode(v)|
    modifies buf`blocks, buf`regions, buf`chunks, buf.Footprint()
    ensures buf.Valid() && Elsewhere(o, buf.regions)
    ensures fresh(buf.Footprint() - old(buf.Footprint()))
    ensures if more then HasRoomBefore(buf) && m <= k && k' == k - m && NextGroup(v, k', shift', flag')
      else m == k + 1 && buf.chunks != []
    ensures m <= k + 1 && (old(HasRoomBefore(buf)) ==> m > 0)
    ensures buf.Whole() == Encode(v)[k + 1 - m..k + 1] + old(buf.Whole())
    ensures !more ==> buf.chunks[0] != []
  {
    hide Encode, NextGroup, Elsewhere, From;
    m, k', shift', flag' := 0, k, shift, flag;
    if buf.blocks != [] {
      var done;
      m, k', shift', flag', done := FillGroupsBack(buf, v, k, shift, flag, o);
      if done { return m, k', shift', flag', false; }
    }
    NewFirst(buf, o);
    more := true;
  }

  // The groups up to the k-th are left, and in front of `w` they give `all`.
  ghost predicate Leaves(e: seq<byte>, k: int, w: seq<byte>, all: seq<byte>) {
    -1 <= k < |e| && e[..k + 1] + w == all
  }

  lemma LeavesAll(e: seq<byte>, w: seq<byte>)
    ensures Leaves(e, |e| - 1, w, e + w)
  {
    assert e[..|e|] == e;
  }

  lemma LeavesLess(e: seq<byte>, k: nat, m: nat, w: seq<byte>, all: seq<byte>)
    requires Leaves(e, k, w, all) && m <= k + 1
    ensures Leaves(e, k - m, e[k + 1 - m..k + 1] + w, all)
  {
    assert e[..k + 1 - m] + (e[k + 1 - m..k + 1] + w) == e[..k + 1] + w;
  }

  lemma LeavesNone(e: seq<byte>, w: seq<byte>, all: seq<byte>)
    requires Leaves(e, -1, w, all)
    ensures w == all
  {
  }

  // The groups go in with the high one first, from the back to the front: the bytes are those that append writes,
  // and otherwise this is what u8s::prepend does with them.
  method Prepend(buf: ByteBuf, v: nat, ghost o: View) returns (n: nat)
    requires buf.Valid() && buf.growth > 0 && Elsewhere(o, buf.regions)
    modifies buf`blocks, buf`regions, buf`chunks, buf.Footprint()
    ensures buf.Valid() && n == |Encode(v)| && Elsewhere(o, buf.regions)
    ensures fresh(buf.Footprint() - old(buf.Footprint()))
    ensures buf.Whole() == Encode(v) + old(buf.Whole())
    ensures buf.idx == 0 ==> buf.Contents() == Encode(v) + old(buf.Contents()) && buf.Tidy()
    ensures buf.idx > 0 ==> !buf.Tidy()
  {
    hide Encode, NextGroup, HasRoomBefore, From, Leaves;
    ghost var e, all := Encode(v), Encode(v) + buf.Whole();
    var shift: nat, flag, more := 0, false, true;
    ghost var k: int, top: nat := 0, 0;
    shift, top := TopShift(v);
    LeavesAll(e, buf.Whole());
    k, n := top, 0;
    while more
      invariant buf.Valid() && Elsewhere(o, buf.regions)
      invariant fresh(buf.Footprint() - old(buf.Footprint()))
      invariant if more then k >= 0 && NextGroup(v, k, shift, flag)
        else k == -1 && buf.chunks != [] && buf.chunks[0] != []
      invariant Leaves(e, k, buf.Whole(), all) && n + k + 1 == |e|
      decreases more, k, more && !HasRoomBefore(buf)
    {
      ghost var before, left: nat := buf.Whole(), k;
      NextGroupIn(v, left, shift, flag);
      var m;
      ghost var k';
      m, k', shift, flag, more := PrependRound(buf, v, left, shift, flag, o);
      LeavesLess(e, left, m, before, all);
      k, n := left - m, n + m;
    }
    LeavesNone(e, buf.Whole(), all);
  }

  // ---- round trips ----

  lemma EncodeAlone(v: nat, c: seq<byte>)
    ensures (c + Encode(v))[|c|..] == Encode(v) + []
  {
  }

  // A number that is put in front is the next one read, and what was there before is left.
  method PrependThenRead(buf: ByteBuf, v: nat, w: nat) returns (r: Option<nat>)
    requires buf.Valid() && buf.growth > 0 && buf.idx == 0 && Width(w) && v < Pow2(w)
    modifies buf`idx, buf`blocks, buf`regions, buf`chunks, buf.Footprint()
    ensures buf.Valid() && r == Some(v) && buf.Contents() == old(buf.Contents())
  {
    hide Encode, Gathered, Terminated, AllApart;
    ghost var c, o := buf.Contents(), View([], [], []);
    var n := Prepend(buf, v, o);
    ghost var taken;
    r, taken := Read(buf, w);
    assert ReadsBack(Encode(v) + c, r, buf.Contents(), w);
  }

  // The number behind the first `at` bytes.
  method SkipThenRead(buf: ByteBuf, at: nat, v: nat, w: nat) returns (r: Option<nat>)
    requires buf.Valid() && Width(w) && v < Pow2(w)
    requires at <= |buf.Contents()| && buf.Contents()[at..] == Encode(v)
    modifies buf`idx, buf`blocks, buf`chunks
    ensures buf.Valid() && r == Some(v) && buf.Contents() == []
  {
    hide Encode, Gathered, Terminated, AllApart, OnlyRead;
    assert Encode(v) == Encode(v) + [];
    var n := buf.Skip(at);
    ghost var taken;
    r, taken := Read(buf, w);
    assert ReadsBack(Encode(v) + [], r, buf.Contents(), w);
  }

  // A number that is put at the end is found there, and read once everything in front of it has been.
  method AppendThenGet(buf: ByteBuf, v: nat, w: nat) returns (r: Got<nat>, s: Option<nat>)
    requires buf.Valid() && buf.growth > 0 && Reachable(buf) && Width(w) && v < Pow2(w)
    modifies buf`idx, buf`blocks, buf`regions, buf`chunks, buf.Footprint()
    ensures buf.Valid() && r == Got(v) && s == Some(v) && buf.Contents() == []
  {
    hide Encode, Gathered, Terminated, AllApart;
    var at := buf.Len();
    ghost var c, o := buf.Contents(), View([], [], []);
    var n := Append(buf, v, o);
    EncodeAlone(v, c);
    ghost var taken, left;
    r, taken, left := Get(buf, at, w);
    s := SkipThenRead(buf, at, v, w);
  }
}
