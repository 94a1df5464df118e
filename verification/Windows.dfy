// src/buf/window.rs: the windows of a buffer, taken from either end.
module WindowIter {
  import opened Slabs
  import opened Flats
  import opened Blocks
  import opened ByteBufs
  import opened U8s

  // ---- a window ----

  datatype Off = Left(off: nat) | Right(off: nat)

  // `size` bytes of the blocks lo to hi - 1: those that `off` bytes lie in front of, or behind.
  datatype Window = Window(buf: ByteBuf, lo: nat, hi: nat, off: Off, size: nat)

  // What the pieces hold up to `off` bytes in front of the end of piece k - 1.
  ghost function Ahead(ds: seq<seq<byte>>, k: nat, off: nat): (r: seq<byte>)
    requires k <= |ds| && (k > 0 ==> off <= |ds[k - 1]|)
  {
    if k > 0 then Between(ds, 0, k - 1) + ds[k - 1][..|ds[k - 1]| - off] else []
  }

  // The pieces and the offset fit together.
  ghost predicate Fits(ds: seq<seq<byte>>, off: Off, size: nat) {
    ds != [] && match off
    case Left(n) => n <= |ds[0]| && size <= |Rest(ds, 0, n)|
    case Right(n) => n <= |ds[|ds| - 1]| && size <= |Ahead(ds, |ds|, n)|
  }

  function Last(c: seq<byte>, n: nat): (r: seq<byte>)
    requires n <= |c|
  {
    c[|c| - n..]
  }

  ghost function Value(ds: seq<seq<byte>>, off: Off, size: nat): (r: seq<byte>)
    requires Fits(ds, off, size)
    ensures |r| == size
  {
    match off
    case Left(n) => Rest(ds, 0, n)[..size]
    case Right(n) => Last(Ahead(ds, |ds|, n), size)
  }

  ghost function Pieces(w: Window): (r: seq<seq<byte>>)
    requires w.lo <= w.hi <= |w.buf.chunks|
    reads w.buf
    ensures |r| == w.hi - w.lo
  {
    w.buf.chunks[w.lo..w.hi]
  }

  ghost predicate Good(w: Window)
    reads w.buf, w.buf.Footprint()
  {
    w.buf.Valid() && w.lo <= w.hi <= |w.buf.chunks| && Fits(Pieces(w), w.off, w.size)
  }

  ghost function Bytes(w: Window): (r: seq<byte>)
    requires Good(w)
    reads w.buf, w.buf.Footprint()
    ensures |r| == w.size
  {
    Value(Pieces(w), w.off, w.size)
  }

  // One step to the left: `bytes` is what piece k - 1 gives.
  lemma AheadStep(ds: seq<seq<byte>>, k: nat, off: nat)
    requires 0 < k <= |ds| && off <= |ds[k - 1]|
    ensures Ahead(ds, k, off) == Ahead(ds, k - 1, 0) + ds[k - 1][..|ds[k - 1]| - off]
  {
    if k > 1 { assert ds[k - 2][..|ds[k - 2]| - 0] == ds[k - 2]; }
  }

  lemma LastOfTwo(c: seq<byte>, bytes: seq<byte>, n: nat)
    requires n <= |c| + |bytes|
    ensures if n <= |bytes| then Last(c + bytes, n) == bytes[|bytes| - n..]
      else Last(c + bytes, n) == Last(c, n - |bytes|) + bytes
  {
  }

  lemma FirstOfTwo(bytes: seq<byte>, c: seq<byte>, n: nat)
    requires n <= |bytes| + |c|
    ensures if n <= |bytes| then (bytes + c)[..n] == bytes[..n] else (bytes + c)[..n] == bytes + c[..n - |bytes|]
  {
  }

  // A block of the window
  method Segment(w: Window, j: nat) returns (bytes: seq<byte>)
    requires Good(w) && j < w.hi - w.lo
    ensures bytes == Pieces(w)[j]
  {
    bytes := w.buf.Piece(w.lo + j);
  }

  // ---- from the left ----

  // `size` bytes of `all` are still to be copied, from position `off` of piece j on.
  ghost predicate Copying(ds: seq<seq<byte>>, j: nat, off: nat, size: nat, bytes: seq<byte>, all: seq<byte>) {
    j <= |ds| && (j < |ds| ==> off <= |ds[j]|) && size <= |Rest(ds, j, off)| && bytes + Rest(ds, j, off)[..size] == all
  }

  lemma CopyStarts(ds: seq<seq<byte>>, off: nat, size: nat, other: seq<byte>)
    requires Fits(ds, Left(off), size)
    ensures Copying(ds, 0, off, size, [], Value(ds, Left(off), size))
    ensures |other| == size ==> Matching(ds, 0, off, other, Value(ds, Left(off), size) == other)
  {
  }

  lemma CopyStep(ds: seq<seq<byte>>, j: nat, off: nat, size: nat, bytes: seq<byte>, all: seq<byte>)
    requires Copying(ds, j, off, size, bytes, all) && j < |ds|
    ensures off <= |ds[j]|
    ensures var len := |ds[j]| - off;
      if len >= size then bytes + ds[j][off..][..size] == all
        else Copying(ds, j + 1, 0, size - len, bytes + ds[j][off..], all)
  {
    FirstOfTwo(ds[j][off..], From(ds, j + 1), size);
  }

  lemma CopyEnds(ds: seq<seq<byte>>, off: nat, size: nat, bytes: seq<byte>, all: seq<byte>)
    requires Copying(ds, |ds|, off, size, bytes, all)
    ensures bytes == all
  {
  }

  method ToBytesLeft(w: Window) returns (bytes: seq<byte>)
    requires Good(w) && w.off.Left?
    ensures bytes == Bytes(w)
  {
    hide Value, Fits, Copying, CopyingBack, Matching, MatchingBack, Rest, Ahead, Pieces, AllApart, Between, From;
    ghost var ds, all := Pieces(w), Bytes(w);
    var off: nat, size: nat, j: nat := w.off.off, w.size, 0;
    bytes := [];
    CopyStarts(ds, off, size, []);
    while j < w.hi - w.lo
      invariant j <= w.hi - w.lo
      invariant Copying(ds, j, off, size, bytes, all)
    {
      var block := Segment(w, j);
      CopyStep(ds, j, off, size, bytes, all);
      var len := |block| - off;
      if len >= size { return bytes + block[off..][..size]; }
      bytes, size, off := bytes + block[off..], size - len, 0;
      j := j + 1;
    }
    CopyEnds(ds, off, size, bytes, all);
  }

  // `other` is still to be compared with what lies from position `off` of piece j on; `same` is the outcome.
  ghost predicate Matching(ds: seq<seq<byte>>, j: nat, off: nat, other: seq<byte>, same: bool) {
    j <= |ds| && (j < |ds| ==> off <= |ds[j]|) && |other| <= |Rest(ds, j, off)|
      && (same <==> Rest(ds, j, off)[..|other|] == other)
  }

  lemma MatchParts(bytes: seq<byte>, c: seq<byte>, other: seq<byte>)
    requires |other| <= |bytes| + |c|
    ensures var len := |bytes|;
      (bytes + c)[..|other|] == other <==>
      if len >= |other| then bytes[..|other|] == other else bytes == other[..len] && c[..|other| - len] == other[len..]
  {
    var len := |bytes|;
    FirstOfTwo(bytes, c, |other|);
    if len < |other| {
      assert other == other[..len] + other[len..];
      assert (bytes + c[..|other| - len])[..len] == bytes && (bytes + c[..|other| - len])[len..] == c[..|other| - len];
    }
  }

  lemma MatchStep(ds: seq<seq<byte>>, j: nat, off: nat, other: seq<byte>, same: bool)
    requires Matching(ds, j, off, other, same) && j < |ds|
    ensures off <= |ds[j]|
    ensures var len := |ds[j]| - off;
      if len >= |other| then same <==> ds[j][off..][..|other|] == other
      else if ds[j][off..] != other[..len] then !same
      else Matching(ds, j + 1, 0, other[len..], same)
  {
    MatchParts(ds[j][off..], From(ds, j + 1), other);
  }

  lemma MatchEnds(ds: seq<seq<byte>>, off: nat, other: seq<byte>, same: bool)
    requires Matching(ds, |ds|, off, other, same)
    ensures other == [] && same
  {
  }

  method EqLeft(w: Window, needle: seq<byte>) returns (r: bool)
    requires Good(w) && w.off.Left?
    ensures r <==> Bytes(w) == needle
  {
    if w.size != |needle| { return false; }
    assert w.lo < w.hi;
    hide Value, Fits, Copying, CopyingBack, Matching, MatchingBack, Rest, Ahead, Pieces, AllApart, Between, From;
    ghost var ds, same := Pieces(w), Bytes(w) == needle;
    var off: nat, other, j: nat := w.off.off, needle, 0;
    CopyStarts(ds, off, w.size, other);
    while j < w.hi - w.lo
      invariant j <= w.hi - w.lo && (j > 0 ==> other != [])
      invariant Matching(ds, j, off, other, same)
    {
      var block := Segment(w, j);
      MatchStep(ds, j, off, other, same);
      var len := |block| - off;
      if len >= |other| { return block[off..][..|other|] == other; }
      if block[off..] != other[..len] { return false; }
      other, off := other[len..], 0;
      j := j + 1;
    }
    MatchEnds(ds, off, other, same);
    r := false;
  }

  // ---- from the right ----

  // `size` bytes of `all` are still to be copied, from `off` bytes in front of the end of piece k - 1 backwards.
  ghost predicate CopyingBack(ds: seq<seq<byte>>, k: nat, off: nat, size: nat, bytes: seq<byte>, all: seq<byte>) {
    k <= |ds| && (k > 0 ==> off <= |ds[k - 1]|) && size <= |Ahead(ds, k, off)|
      && Last(Ahead(ds, k, off), size) + bytes == all
  }

  lemma CopyBackStarts(ds: seq<seq<byte>>, off: nat, size: nat, other: seq<byte>)
    requires Fits(ds, Right(off), size)
    ensures CopyingBack(ds, |ds|, off, size, [], Value(ds, Right(off), size))
    ensures |other| == size ==> MatchingBack(ds, |ds|, off, other, Value(ds, Right(off), size) == other)
  {
  }

  lemma CopyBackStep(ds: seq<seq<byte>>, k: nat, off: nat, size: nat, bytes: seq<byte>, all: seq<byte>)
    requires CopyingBack(ds, k, off, size, bytes, all) && k > 0
    ensures off <= |ds[k - 1]|
    ensures var len := |ds[k - 1]| - off;
      if len >= size then ds[k - 1][..len][len - size..] + bytes == all
        else CopyingBack(ds, k - 1, 0, size - len, ds[k - 1][..len] + bytes, all)
  {
    AheadStep(ds, k, off);
    LastOfTwo(Ahead(ds, k - 1, 0), ds[k - 1][..|ds[k - 1]| - off], size);
  }

  lemma CopyBackEnds(ds: seq<seq<byte>>, off: nat, size: nat, bytes: seq<byte>, all: seq<byte>)
    requires CopyingBack(ds, 0, off, size, bytes, all)
    ensures bytes == all
  {
  }

  method ToBytesRight(w: Window) returns (bytes: seq<byte>)
    requires Good(w) && w.off.Right?
    ensures bytes == Bytes(w)
  {
    hide Value, Fits, Copying, CopyingBack, Matching, MatchingBack, Rest, Ahead, Pieces, AllApart, Between, From;
    ghost var ds, all := Pieces(w), Bytes(w);
    var off: nat, size: nat, k: nat := w.off.off, w.size, w.hi - w.lo;
    bytes := [];
    CopyBackStarts(ds, off, size, []);
    while k > 0
      invariant k <= w.hi - w.lo
      invariant CopyingBack(ds, k, off, size, bytes, all)
    {
      var block := Segment(w, k - 1);
      CopyBackStep(ds, k, off, size, bytes, all);
      var len := |block| - off;
      if len >= size { return block[..len][len - size..] + bytes; }
      bytes, size, off := block[..len] + bytes, size - len, 0;
      k := k - 1;
    }
    CopyBackEnds(ds, off, size, bytes, all);
  }

  ghost predicate MatchingBack(ds: seq<seq<byte>>, k: nat, off: nat, other: seq<byte>, same: bool) {
    k <= |ds| && (k > 0 ==> off <= |ds[k - 1]|) && |other| <= |Ahead(ds, k, off)|
      && (same <==> Last(Ahead(ds, k, off), |other|) == other)
  }

  lemma MatchPartsBack(c: seq<byte>, bytes: seq<byte>, other: seq<byte>)
    requires |other| <= |c| + |bytes|
    ensures var len := |bytes|;
      Last(c + bytes, |other|) == other <==>
      if len >= |other| then Last(bytes, |other|) == other
      else bytes == Last(other, len) && Last(c, |other| - len) == other[..|other| - len]
  {
    var len := |bytes|;
    LastOfTwo(c, bytes, |other|);
    if len < |other| {
      var n := |other| - len;
      assert other == other[..n] + other[n..];
      assert (Last(c, n) + bytes)[..n] == Last(c, n) && (Last(c, n) + bytes)[n..] == bytes;
    }
  }

  lemma MatchBackStep(ds: seq<seq<byte>>, k: nat, off: nat, other: seq<byte>, same: bool)
    requires MatchingBack(ds, k, off, other, same) && k > 0
    ensures off <= |ds[k - 1]|
    ensures var len := |ds[k - 1]| - off;
      if len >= |other| then same <==> Last(ds[k - 1][..len], |other|) == other
      else if ds[k - 1][..len] != Last(other, len) then !same
      else MatchingBack(ds, k - 1, 0, other[..|other| - len], same)
  {
    AheadStep(ds, k, off);
    MatchPartsBack(Ahead(ds, k - 1, 0), ds[k - 1][..|ds[k - 1]| - off], other);
  }

  lemma MatchBackEnds(ds: seq<seq<byte>>, off: nat, other: seq<byte>, same: bool)
    requires MatchingBack(ds, 0, off, other, same)
    ensures other == [] && same
  {
  }

  method EqRight(w: Window, needle: seq<byte>) returns (r: bool)
    requires Good(w) && w.off.Right?
    ensures r <==> Bytes(w) == needle
  {
    if w.size != |needle| { return false; }
    assert w.lo < w.hi;
    hide Value, Fits, Copying, CopyingBack, Matching, MatchingBack, Rest, Ahead, Pieces, Last, AllApart, Between, From;
    ghost var ds, same := Pieces(w), Bytes(w) == needle;
    var off: nat, other, k: nat := w.off.off, needle, w.hi - w.lo;
    CopyBackStarts(ds, off, w.size, other);
    while k > 0
      invariant k <= w.hi - w.lo && (k < w.hi - w.lo ==> other != [])
      invariant MatchingBack(ds, k, off, other, same)
    {
      var block := Segment(w, k - 1);
      MatchBackStep(ds, k, off, other, same);
      var len := |block| - off;
      var bytes := block[..len];
      if len >= |other| { return Last(bytes, |other|) == other; }
      if bytes != Last(other, len) { return false; }
      other, off := other[..|other| - len], 0;
      k := k - 1;
    }
    MatchBackEnds(ds, off, other, same);
    r := false;
  }

  method ToBytes(w: Window) returns (bytes: seq<byte>)
    requires Good(w)
    ensures bytes == Bytes(w)
  {
    if w.off.Left? { bytes := ToBytesLeft(w); } else { bytes := ToBytesRight(w); }
  }

  // PartialEq
  method Eq(w: Window, needle: seq<byte>) returns (r: bool)
    requires Good(w)
    ensures r <==> Bytes(w) == needle
  {
    if w.off.Left? { r := EqLeft(w, needle); } else { r := EqRight(w, needle); }
  }

  // ---- the iterator ----

  lemma Middle(cs: seq<seq<byte>>, idx: nat, lo: nat, hi: nat)
    requires idx <= lo <= hi <= |cs|
    ensures From(cs, idx) == Between(cs, idx, lo) + (Flat(cs[lo..hi]) + From(cs, hi))
  {
    FromSplits(cs, idx, lo);
    FromShift(cs[lo..], cs, 0, lo);
    FromMore(cs[lo..hi], cs[hi..], 0);
    FromShift(cs[hi..], cs, 0, hi);
    assert cs[lo..] == cs[lo..hi] + cs[hi..];
  }

  // The pieces lo to hi - 1 hold what lies between position a and b bytes in front of the end.
  ghost predicate Spans(cs: seq<seq<byte>>, idx: nat, lo: nat, hi: nat, off: nat, roff: nat, a: nat, b: nat) {
    && idx <= lo < hi <= |cs| && off <= |cs[lo]| && roff <= |cs[hi - 1]|
    && |Between(cs, idx, lo)| + off == a && |From(cs, hi)| + roff == b
  }

  lemma SpansBounds(cs: seq<seq<byte>>, idx: nat, lo: nat, hi: nat, off: nat, roff: nat, a: nat, b: nat)
    requires Spans(cs, idx, lo, hi, off, roff, a, b)
    ensures idx <= lo < hi <= |cs|
    ensures off < |cs[lo]| ==> Spans(cs, idx, lo, hi, off + 1, roff, a + 1, b)
    ensures roff < |cs[hi - 1]| ==> Spans(cs, idx, lo, hi, off, roff + 1, a, b + 1)
  {
  }

  lemma SomeLeft(n: nat, size: nat, a: nat, b: nat, len: nat)
    requires size > 0 && len > 0 && a + b + len == Count(n, size)
    ensures a + size + b <= n && a + b < n
  {
  }

  // A part of what lies in the middle.
  lemma PartOfMiddle(l: seq<byte>, d: seq<byte>, r: seq<byte>, from: nat, n: nat)
    requires from + n <= |d|
    ensures (l + (d + r))[|l| + from..|l| + from + n] == d[from..from + n]
  {
  }

  lemma LeftWindow(cs: seq<seq<byte>>, idx: nat, lo: nat, hi: nat, off: nat, roff: nat, a: nat, b: nat, size: nat)
    requires Spans(cs, idx, lo, hi, off, roff, a, b) && a + size + b <= |From(cs, idx)|
    ensures Fits(cs[lo..hi], Left(off), size)
    ensures Value(cs[lo..hi], Left(off), size) == From(cs, idx)[a..a + size]
  {
    var ds := cs[lo..hi];
    Middle(cs, idx, lo, hi);
    Around(ds, 0, 0, off);
    PartOfMiddle(Between(cs, idx, lo), Flat(ds), From(cs, hi), off, size);
    assert Flat(ds)[off..][..size] == Flat(ds)[off..off + size];
  }

  lemma AheadIs(ds: seq<seq<byte>>, roff: nat)
    requires ds != [] && roff <= |ds[|ds| - 1]|
    ensures roff <= |Flat(ds)| && Ahead(ds, |ds|, roff) == Flat(ds)[..|Flat(ds)| - roff]
  {
    var k := |ds| - 1;
    FromSplits(ds, 0, k);
    assert From(ds, k) == ds[k] + [];
    Around(ds, 0, k, |ds[k]| - roff);
  }

  lemma RightWindow(cs: seq<seq<byte>>, idx: nat, lo: nat, hi: nat, off: nat, roff: nat, a: nat, b: nat, size: nat)
    requires Spans(cs, idx, lo, hi, off, roff, a, b) && a + size + b <= |From(cs, idx)|
    ensures Fits(cs[lo..hi], Right(roff), size)
    ensures Value(cs[lo..hi], Right(roff), size) == From(cs, idx)[|From(cs, idx)| - b - size..|From(cs, idx)| - b]
  {
    var ds := cs[lo..hi];
    Middle(cs, idx, lo, hi);
    AheadIs(ds, roff);
    var n := |Flat(ds)| - roff;
    PartOfMiddle(Between(cs, idx, lo), Flat(ds), From(cs, hi), n - size, size);
    assert Flat(ds)[..n][n - size..] == Flat(ds)[n - size..n];
  }

  // A block that has been passed is not the last one, as long as there is something in the middle.
  lemma PassFirst(cs: seq<seq<byte>>, idx: nat, lo: nat, hi: nat, off: nat, roff: nat, a: nat, b: nat)
    requires Spans(cs, idx, lo, hi, off, roff, a, b) && a + b < |From(cs, idx)| && |cs[lo]| <= off
    ensures Spans(cs, idx, lo + 1, hi, 0, roff, a, b)
  {
    FromSplits(cs, idx, hi);
    assert Between(cs, idx, lo + 1) == Between(cs, idx, lo) + cs[lo];
  }

  lemma PassLast(cs: seq<seq<byte>>, idx: nat, lo: nat, hi: nat, off: nat, roff: nat, a: nat, b: nat)
    requires Spans(cs, idx, lo, hi, off, roff, a, b) && a + b < |From(cs, idx)| && |cs[hi - 1]| <= roff
    ensures Spans(cs, idx, lo, hi - 1, off, 0, a, b)
  {
    FromSplits(cs, idx, hi - 1);
    assert From(cs, hi - 1) == cs[hi - 1] + From(cs, hi);
  }

  function Count(n: nat, size: nat): (r: nat) {
    if n >= size then n - size + 1 else 0
  }

  // This window is `size` bytes of the contents, from position `at` on.
  ghost predicate Shows(w: Window, buf: ByteBuf, at: nat, size: nat)
    reads buf, w.buf, w.buf.Footprint()
  {
    Good(w) && w.buf == buf && at + size <= |buf.Contents()| && Bytes(w) == buf.Contents()[at..at + size]
  }

  class Windows {
    const buf: ByteBuf
    const size: nat
    var lo: nat          // the blocks lo to hi - 1 of the buffer
    var hi: nat
    var off: nat
    var roff: nat
    var len: nat
    ghost var front: nat // how many windows were taken at the front and at the back
    ghost var back: nat

    ghost predicate Valid()
      reads this, buf, buf.Footprint()
    {
      && buf.Valid() && size > 0 && front + back + len == Count(|buf.Contents()|, size)
      && (len > 0 ==> Spans(buf.chunks, buf.idx, lo, hi, off, roff, front, back))
    }

    constructor (buf: ByteBuf, size: nat)
      requires buf.Valid() && size > 0
      ensures Valid() && this.buf == buf && this.size == size && front == back == 0
      ensures len == Count(|buf.Contents()|, size)
    {
      this.buf, this.size := buf, size;
      lo, hi, off, roff, front, back := buf.idx, |buf.blocks|, 0, 0, 0, 0;
      var n := buf.Len();
      len := if n >= size then n - size + 1 else 0;
    }

    // The first block with something left; there is one, so the branch for no block is never taken.
    method SkipFirst()
      requires Valid() && len > 0
      modifies this`lo, this`off
      ensures Valid() && off < |buf.chunks[lo]|
    {
      hide Between, From, Spans, Count, AllApart;
      SpansBounds(buf.chunks, buf.idx, lo, hi, off, roff, front, back);
      while true
        invariant Valid() && lo < hi <= |buf.chunks|
        decreases hi - lo
      {
        var block := buf.Piece(lo);
        if |block| > off { return; }
        SomeLeft(|buf.Contents()|, size, front, back, len);
        PassFirst(buf.chunks, buf.idx, lo, hi, off, roff, front, back);
        lo, off := lo + 1, 0;
        SpansBounds(buf.chunks, buf.idx, lo, hi, off, roff, front, back);
      }
    }

    method SkipLast()
      requires Valid() && len > 0
      modifies this`hi, this`roff
      ensures Valid() && roff < |buf.chunks[hi - 1]|
    {
      hide Between, From, Spans, Count, AllApart;
      SpansBounds(buf.chunks, buf.idx, lo, hi, off, roff, front, back);
      while true
        invariant Valid() && lo < hi <= |buf.chunks|
        decreases hi - lo
      {
        var block := buf.Piece(hi - 1);
        if |block| > roff { return; }
        SomeLeft(|buf.Contents()|, size, front, back, len);
        PassLast(buf.chunks, buf.idx, lo, hi, off, roff, front, back);
        hi, roff := hi - 1, 0;
        SpansBounds(buf.chunks, buf.idx, lo, hi, off, roff, front, back);
      }
    }

    // Window::from_left and Window::from_right
    method FromLeft() returns (w: Window)
      requires Valid() && len > 0
      ensures w.buf == buf && Shows(w, buf, front, size)
    {
      hide Between, From, Spans, Count, Fits, Value;
      SpansBounds(buf.chunks, buf.idx, lo, hi, off, roff, front, back);
      SomeLeft(|buf.Contents()|, size, front, back, len);
      LeftWindow(buf.chunks, buf.idx, lo, hi, off, roff, front, back, size);
      w := Window(buf, lo, hi, Left(off), size);
    }

    method FromRight() returns (w: Window)
      requires Valid() && len > 0
      ensures w.buf == buf && size + back <= |buf.Contents()| && Shows(w, buf, |buf.Contents()| - back - size, size)
    {
      hide Between, From, Spans, Count, Fits, Value;
      SpansBounds(buf.chunks, buf.idx, lo, hi, off, roff, front, back);
      SomeLeft(|buf.Contents()|, size, front, back, len);
      RightWindow(buf.chunks, buf.idx, lo, hi, off, roff, front, back, size);
      w := Window(buf, lo, hi, Right(roff), size);
    }

    method Next() returns (w: Option<Window>)
      requires Valid()
      modifies this`lo, this`off, this`len, this`front
      ensures Valid() && (w.Some? <==> old(len) > 0)
      ensures if w.Some? then len == old(len) - 1 && front == old(front) + 1 else len == 0 && front == old(front)
      ensures w.Some? ==> Shows(w.value, buf, old(front), size)
    {
      hide Spans, Fits, Value, Pieces, Between, From, Count;
      if len == 0 { return None; }
      SkipFirst();
      SpansBounds(buf.chunks, buf.idx, lo, hi, off, roff, front, back);
      var left := FromLeft();
      w := Some(left);
      len, off, front := len - 1, off + 1, front + 1;
    }

    // The windows that start behind the first Count() ones do not exist, so the last one starts size bytes in front
    // of the end.
    method NextBack() returns (w: Option<Window>)
      requires Valid()
      modifies this`hi, this`roff, this`len, this`back
      ensures Valid() && (w.Some? <==> old(len) > 0)
      ensures if w.Some? then len == old(len) - 1 && back == old(back) + 1 else len == 0 && back == old(back)
      ensures w.Some? ==>
        size + old(back) <= |buf.Contents()| && Shows(w.value, buf, |buf.Contents()| - old(back) - size, size)
    {
      hide Spans, Fits, Value, Pieces, Between, From, Count;
      if len == 0 { return None; }
      SkipLast();
      SpansBounds(buf.chunks, buf.idx, lo, hi, off, roff, front, back);
      var right := FromRight();
      w := Some(right);
      len, roff, back := len - 1, roff + 1, back + 1;
    }
  }

  // ---- all windows ----

  // The windows taken so far are the first `front` and the last `back` of n.
  ghost predicate Taken(starts: seq<nat>, n: nat, front: nat, back: nat) {
    && |starts| == front + back <= n
    && (forall i, j :: 0 <= i < j < |starts| ==> starts[i] != starts[j])
    && (forall p: nat :: p in starts <==> p < front || n - back <= p < n)
  }

  lemma TakeOne(starts: seq<nat>, n: nat, front: nat, back: nat)
    requires Taken(starts, n, front, back) && front + back < n
    ensures Taken(starts + [front], n, front + 1, back)
    ensures Taken(starts + [n - 1 - back], n, front, back + 1)
  {
    assert front !in starts && n - 1 - back !in starts;
    forall p: nat ensures (p in starts + [front] <==> p in starts || p == front)
      && (p in starts + [n - 1 - back] <==> p in starts || p == n - 1 - back) { }
  }

  // These are the windows that start there.
  ghost predicate Are(out: seq<seq<byte>>, starts: seq<nat>, c: seq<byte>, size: nat) {
    |out| == |starts| && forall i :: 0 <= i < |out| ==>
      starts[i] + size <= |c| && out[i] == c[starts[i]..starts[i] + size]
  }

  lemma AreMore(out: seq<seq<byte>>, starts: seq<nat>, bytes: seq<byte>, at: nat, c: seq<byte>, size: nat)
    requires Are(out, starts, c, size) && Are([bytes], [at], c, size)
    ensures Are(out + [bytes], starts + [at], c, size)
  {
    assert [bytes][0] == bytes && [at][0] == at;
  }

  lemma NoneTaken(n: nat, c: seq<byte>, size: nat)
    ensures Taken([], n, 0, 0) && Are([], [], c, size)
  {
  }

  lemma AllTaken(starts: seq<nat>, n: nat, size: nat, front: nat, back: nat)
    requires size > 0 && Taken(starts, Count(n, size), front, back)
    ensures forall i, j :: 0 <= i < j < |starts| ==> starts[i] != starts[j]
    ensures front + back == Count(n, size) ==> forall p: nat :: p + size <= n ==> p in starts
  {
  }

  method TakeAt(windows: Windows, atFront: bool) returns (bytes: seq<byte>, ghost at: nat)
    requires windows.Valid() && windows.len > 0
    modifies windows
    ensures windows.Valid() && windows.len == old(windows.len) - 1
    ensures if atFront then windows.front == old(windows.front) + 1 && windows.back == old(windows.back)
      else windows.front == old(windows.front) && windows.back == old(windows.back) + 1
    ensures Are([bytes], [at], windows.buf.Contents(), windows.size)
    ensures at == if atFront then old(windows.front)
      else Count(|windows.buf.Contents()|, windows.size) - 1 - old(windows.back)
  {
    hide Spans, Fits, Value, Pieces, Between, From;
    at := if atFront then windows.front else Count(|windows.buf.Contents()|, windows.size) - 1 - windows.back;
    var w;
    if atFront { w := windows.Next(); } else { w := windows.NextBack(); }
    bytes := ToBytes(w.value);
  }

  // Windows are taken at whichever end, until there are none. Each is the one it should be, no two are the same,
  // and in the end none has been left out.
  method TakeAll(buf: ByteBuf, size: nat, ends: seq<bool>) returns (out: seq<seq<byte>>, ghost starts: seq<nat>)
    requires buf.Valid() && size > 0
    ensures |out| == if |ends| < Count(|buf.Contents()|, size) then |ends| else Count(|buf.Contents()|, size)
    ensures Are(out, starts, buf.Contents(), size)
    ensures forall i, j :: 0 <= i < j < |starts| ==> starts[i] != starts[j]
    ensures |ends| >= Count(|buf.Contents()|, size) ==> forall p: nat :: p + size <= |buf.Contents()| ==> p in starts
  {
    hide Spans, Between, From, Count, Are, Taken;
    var windows := new Windows(buf, size);
    ghost var c, n := buf.Contents(), Count(|buf.Contents()|, size);
    out, starts := [], [];
    NoneTaken(n, c, size);
    var k := 0;
    while k < |ends| && windows.len > 0
      invariant windows.Valid() && windows.buf == buf && windows.size == size && k <= |ends|
      invariant k == |out| && windows.len == n - k
      invariant Taken(starts, n, windows.front, windows.back) && Are(out, starts, c, size)
    {
      TakeOne(starts, n, windows.front, windows.back);
      var bytes;
      ghost var at;
      bytes, at := TakeAt(windows, ends[k]);
      AreMore(out, starts, bytes, at, c, size);
      out, starts, k := out + [bytes], starts + [at], k + 1;
    }
    AllTaken(starts, |c|, size, windows.front, windows.back);
  }
}
