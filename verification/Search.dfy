// The searches of src/buf/mod.rs: what they find in the blocks is what there is in the flat contents.
module Searches {
  import opened Bits
  import opened Slabs
  import opened Flats
  import opened ByteBufs

  predicate MatchAt(c: seq<byte>, needle: seq<byte>, p: nat) {
    p + |needle| <= |c| && c[p..p + |needle|] == needle
  }

  // No match starts in [a, b).
  ghost predicate NoMatch(c: seq<byte>, needle: seq<byte>, a: nat, b: int) {
    forall p :: a <= p < b ==> !MatchAt(c, needle, p)
  }

  // The first match from `from` on.
  ghost predicate IsFirst(c: seq<byte>, needle: seq<byte>, from: nat, r: Option<nat>) {
    match r
    case Some(p) => from <= p && MatchAt(c, needle, p) && NoMatch(c, needle, from, p)
    case None => NoMatch(c, needle, from, |c| + 1)
  }

  // The last match up to `to`.
  ghost predicate IsLast(c: seq<byte>, needle: seq<byte>, to: nat, r: Option<nat>) {
    match r
    case Some(p) => p <= to && MatchAt(c, needle, p) && NoMatch(c, needle, p + 1, to + 1)
    case None => NoMatch(c, needle, 0, to + 1)
  }

  predicate IsPrefix(p: seq<byte>, c: seq<byte>) {
    |p| <= |c| && c[..|p|] == p
  }

  predicate IsSuffix(s: seq<byte>, c: seq<byte>) {
    |s| <= |c| && c[|c| - |s|..] == s
  }

  // ---- matches in a sequence of two parts ----

  lemma MatchBehind(l: seq<byte>, r: seq<byte>, needle: seq<byte>, p: nat)
    ensures MatchAt(l + r, needle, |l| + p) <==> MatchAt(r, needle, p)
  {
    if p + |needle| <= |r| { assert (l + r)[|l| + p..|l| + p + |needle|] == r[p..p + |needle|]; }
  }

  lemma MatchInFront(l: seq<byte>, r: seq<byte>, needle: seq<byte>, p: nat)
    requires p + |needle| <= |l|
    ensures MatchAt(l + r, needle, p) <==> MatchAt(l, needle, p)
  {
    assert (l + r)[p..p + |needle|] == l[p..p + |needle|];
  }

  lemma MatchAcross(l: seq<byte>, r: seq<byte>, needle: seq<byte>, p: nat)
    requires p <= |l| <= p + |needle|
    ensures MatchAt(l + r, needle, p) <==> l[p..] == needle[..|l| - p] && IsPrefix(needle[|l| - p..], r)
  {
    var m := |l| - p;
    if p + |needle| <= |l + r| {
      var w := (l + r)[p..p + |needle|];
      assert w == l[p..] + r[..|needle| - m];
      assert w[..m] == l[p..] && w[m..] == r[..|needle| - m];
      assert needle == needle[..m] + needle[m..];
    }
  }

  lemma MatchAcrossBack(l: seq<byte>, r: seq<byte>, needle: seq<byte>, m: nat)
    requires m <= |r| && m <= |needle|
    ensures (|needle| - m <= |l| && MatchAt(l + r, needle, |l| + m - |needle|))
      <==> r[..m] == needle[|needle| - m..] && IsSuffix(needle[..|needle| - m], l)
  {
    var n := |needle| - m;
    if n <= |l| {
      var p := |l| - n;
      var w := (l + r)[p..p + |needle|];
      assert w == l[p..] + r[..m];
      assert w[..n] == l[p..] && w[n..] == r[..m];
      assert needle == needle[..n] + needle[n..];
    }
  }

  lemma PrefixOfTwo(p: seq<byte>, l: seq<byte>, r: seq<byte>)
    ensures |p| <= |l| ==> (IsPrefix(p, l + r) <==> IsPrefix(p, l))
    ensures |p| > |l| ==> (IsPrefix(p, l + r) <==> p[..|l|] == l && IsPrefix(p[|l|..], r))
  {
    if |p| <= |l| {
      assert (l + r)[..|p|] == l[..|p|];
    } else if |p| <= |l| + |r| {
      assert (l + r)[..|p|] == l + r[..|p| - |l|];
      assert p == p[..|l|] + p[|l|..];
    }
  }

  lemma SuffixOfTwo(s: seq<byte>, l: seq<byte>, r: seq<byte>)
    ensures |s| <= |r| ==> (IsSuffix(s, l + r) <==> IsSuffix(s, r))
    ensures |s| > |r| ==> (IsSuffix(s, l + r) <==> s[|s| - |r|..] == r && IsSuffix(s[..|s| - |r|], l))
  {
    var c := l + r;
    if |s| <= |r| {
      assert c[|c| - |s|..] == r[|r| - |s|..];
    } else if |s| <= |c| {
      var n := |s| - |r|;
      assert c[|c| - |s|..] == l[|l| - n..] + r;
      assert s == s[..n] + s[n..];
    }
  }

  lemma SuffixIs(s: seq<byte>, c: seq<byte>)
    ensures IsSuffix(s, c) <==> |s| <= |c| && c[|c| - |s|..] == s
  {
  }

  // ---- starts_with and ends_with ----

  // starts_with_internal: only blocks from `pos` on are looked at, and there must be one.
  method StartsWithFrom(buf: ByteBuf, needle: seq<byte>, pos: nat) returns (r: bool)
    requires buf.Valid() && pos <= |buf.blocks|
    ensures r <==> pos < |buf.blocks| && IsPrefix(needle, From(buf.chunks, pos))
  {
    var rest := needle;
    for k := pos to |buf.blocks|
      invariant k > pos ==> rest != []
      invariant IsPrefix(needle, From(buf.chunks, pos)) <==> IsPrefix(rest, From(buf.chunks, k))
    {
      var bytes := buf.Piece(k);
      PrefixOfTwo(rest, bytes, From(buf.chunks, k + 1));
      if |bytes| < |rest| {
        if bytes != rest[..|bytes|] { return false; }
        rest := rest[|bytes|..];
      } else {
        return bytes[..|rest|] == rest;
      }
    }
    r := false;
  }

  method StartsWith(buf: ByteBuf, needle: seq<byte>) returns (r: bool)
    requires buf.Valid()
    ensures r <==> IsPrefix(needle, buf.Contents())
  {
    if needle == [] { return true; }
    r := StartsWithFrom(buf, needle, buf.idx);
  }

  // ends_with_internal: the blocks in front of block `rpos`
  method EndsWithUpTo(buf: ByteBuf, needle: seq<byte>, rpos: nat) returns (r: bool)
    requires buf.Valid() && buf.idx <= rpos <= |buf.blocks|
    ensures r <==> buf.idx < rpos && IsSuffix(needle, Between(buf.chunks, buf.idx, rpos))
  {
    hide IsSuffix;
    var rest, k := needle, rpos;
    while k > buf.idx
      invariant buf.idx <= k <= rpos
      invariant k < rpos ==> rest != []
      invariant IsSuffix(needle, Between(buf.chunks, buf.idx, rpos)) <==>
        IsSuffix(rest, Between(buf.chunks, buf.idx, k))
    {
      k := k - 1;
      var bytes := buf.Piece(k);
      SuffixOfTwo(rest, Between(buf.chunks, buf.idx, k), bytes);
      if |bytes| < |rest| {
        if bytes != rest[|rest| - |bytes|..] { return false; }
        rest := rest[..|rest| - |bytes|];
      } else {
        SuffixIs(rest, bytes);
        return bytes[|bytes| - |rest|..] == rest;
      }
    }
    SuffixIs(rest, []);
    r := false;
  }

  method EndsWith(buf: ByteBuf, needle: seq<byte>) returns (r: bool)
    requires buf.Valid()
    ensures r <==> IsSuffix(needle, buf.Contents())
  {
    if needle == [] { return true; }
    FromAll(buf.chunks, buf.idx);
    r := EndsWithUpTo(buf, needle, |buf.blocks|);
  }

  // ---- find ----

  // The first window of a slice that equals the needle, and the last one.
  method FirstWindow(bytes: seq<byte>, needle: seq<byte>) returns (r: Option<nat>)
    requires |needle| <= |bytes|
    ensures IsFirst(bytes, needle, 0, r)
  {
    for p := 0 to |bytes| - |needle| + 1
      invariant NoMatch(bytes, needle, 0, p)
    {
      if bytes[p..p + |needle|] == needle { return Some(p); }
    }
    r := None;
  }

  method LastWindow(bytes: seq<byte>, needle: seq<byte>) returns (r: Option<nat>)
    requires |needle| <= |bytes|
    ensures IsLast(bytes, needle, |bytes| - |needle|, r)
  {
    var p := |bytes| - |needle| + 1;
    while p > 0
      invariant 0 <= p <= |bytes| - |needle| + 1
      invariant NoMatch(bytes, needle, p, |bytes| - |needle| + 1)
    {
      p := p - 1;
      if bytes[p..p + |needle|] == needle { return Some(p); }
    }
    r := None;
  }

  // A match that starts in `bytes` and ends in one of the blocks from k on.
  method FirstAcross(buf: ByteBuf, needle: seq<byte>, bytes: seq<byte>, k: nat) returns (r: Option<nat>)
    requires buf.Valid() && k < |buf.blocks| && |bytes| < |needle|
    ensures var c := bytes + From(buf.chunks, k);
      match r
        case Some(m) => m < |bytes| && MatchAt(c, needle, m) && NoMatch(c, needle, 0, m)
        case None => NoMatch(c, needle, 0, |bytes|)
  {
    ghost var c := bytes + From(buf.chunks, k);
    for m := 0 to |bytes|
      invariant NoMatch(c, needle, 0, m)
    {
      MatchAcross(bytes, From(buf.chunks, k), needle, m);
      if bytes[m..] == needle[..|bytes| - m] {
        var here := StartsWithFrom(buf, needle[|bytes| - m..], k);
        if here { return Some(m); }
      }
    }
    r := None;
  }

  // What is found in `l + d` behind `l`.
  lemma Behind(l: seq<byte>, d: seq<byte>, needle: seq<byte>, n: nat)
    requires NoMatch(d, needle, 0, n)
    ensures NoMatch(l + d, needle, |l|, |l| + n)
  {
    forall p | |l| <= p < |l| + n ensures !MatchAt(l + d, needle, p) { MatchBehind(l, d, needle, p - |l|); }
  }

  lemma InBlock(l: seq<byte>, bytes: seq<byte>, rest: seq<byte>, needle: seq<byte>, w: Option<nat>)
    requires |needle| <= |bytes| && IsFirst(bytes, needle, 0, w)
    ensures w.Some? ==>
      MatchAt(l + (bytes + rest), needle, |l| + w.value) && NoMatch(l + (bytes + rest), needle, |l|, |l| + w.value)
    ensures w.None? ==> NoMatch(l + (bytes + rest), needle, |l|, |l| + |bytes| - |needle| + 1)
  {
    var n := if w.Some? then w.value else |bytes| - |needle| + 1;
    forall p | 0 <= p < n ensures !MatchAt(bytes + rest, needle, p) {
      if w.Some? { assert w.value + |needle| <= |bytes|; }
      MatchInFront(bytes, rest, needle, p);
    }
    Behind(l, bytes + rest, needle, n);
    if w.Some? {
      MatchInFront(bytes, rest, needle, w.value);
      MatchBehind(l, bytes + rest, needle, w.value);
    }
  }

  lemma Shift(l: seq<byte>, bytes: seq<byte>, rest: seq<byte>, m: nat)
    requires m <= |bytes|
    ensures l + (bytes + rest) == (l + bytes[..m]) + (bytes[m..] + rest)
    ensures m == |bytes| ==> l + (bytes + rest) == (l + bytes) + rest
  {
  }

  // The position lies `l` behind the start: bytes of block k, and the blocks behind it, are still to be searched.
  ghost predicate Left(cs: seq<seq<byte>>, k: nat, l: seq<byte>, bytes: seq<byte>, c: seq<byte>, pos: nat) {
    k < |cs| && c == l + (bytes + From(cs, k + 1)) && pos == |l|
  }

  lemma LeftAt(cs: seq<seq<byte>>, idx: nat, pos: nat, i: nat, off: nat) returns (l: seq<byte>)
    requires Located(cs, idx, pos, i, off)
    ensures Left(cs, i, l, cs[i][off..], From(cs, idx), pos)
  {
    var c := From(cs, idx);
    Around(cs, idx, i, off);
    l := c[..pos];
    assert c == c[..pos] + c[pos..];
  }

  // The next block; nothing but the end of the bytes in front of it is left to be searched.
  method NextToSearch(buf: ByteBuf, k: nat, bytes: seq<byte>, ghost l: seq<byte>, ghost c: seq<byte>, ghost pos: nat)
    returns (next: seq<byte>, ghost l': seq<byte>)
    requires buf.Valid() && k + 1 < |buf.blocks| && Left(buf.chunks, k, l, bytes, c, pos)
    ensures Left(buf.chunks, k + 1, l', next, c, pos + |bytes|)
  {
    next := buf.Piece(k + 1);
    l' := l + bytes;
    Shift(l, bytes, From(buf.chunks, k + 1), |bytes|);
  }

  // Of the matches that are left, those that lie in `bytes`.
  method FindInBlock(ghost cs: seq<seq<byte>>, needle: seq<byte>, k: nat, bytes: seq<byte>, ghost l: seq<byte>,
    ghost c: seq<byte>, ghost from: nat, pos: nat)
    returns (r: Option<nat>, bytes': seq<byte>, pos': nat, ghost l': seq<byte>)
    requires needle != [] && Left(cs, k, l, bytes, c, pos) && from <= pos && NoMatch(c, needle, from, pos)
    ensures r.Some? ==> IsFirst(c, needle, from, r)
    ensures r.None? ==>
      |bytes'| < |needle| && Left(cs, k, l', bytes', c, pos') && from <= pos' && NoMatch(c, needle, from, pos')
  {
    r, bytes', pos', l' := None, bytes, pos, l;
    if |bytes| >= |needle| {
      var w := FirstWindow(bytes, needle);
      InBlock(l, bytes, From(cs, k + 1), needle, w);
      if w.Some? { return Some(pos + w.value), bytes, pos, l; }
      var n := |bytes| - |needle| + 1;
      Shift(l, bytes, From(cs, k + 1), n);
      pos', bytes', l' := pos + n, bytes[n..], l + bytes[..n];
    }
  }

  // Of the matches that are left, those that start in `bytes`.
  method FindAcross(buf: ByteBuf, needle: seq<byte>, k: nat, bytes: seq<byte>, ghost l: seq<byte>,
    ghost c: seq<byte>, ghost from: nat, pos: nat)
    returns (r: Option<nat>)
    requires buf.Valid() && k + 1 < |buf.blocks| && |bytes| < |needle| && Left(buf.chunks, k, l, bytes, c, pos)
    requires from <= pos && NoMatch(c, needle, from, pos)
    ensures if r.Some? then IsFirst(c, needle, from, r) else NoMatch(c, needle, from, pos + |bytes|)
  {
    var x := FirstAcross(buf, needle, bytes, k + 1);
    ghost var d := bytes + From(buf.chunks, k + 1);
    Behind(l, d, needle, if x.Some? then x.value else |bytes|);
    if x.Some? { MatchBehind(l, d, needle, x.value); }
    r := match x case Some(m) => Some(pos + m) case None => None;
  }

  lemma NoMatchEmpty(c: seq<byte>, needle: seq<byte>, a: nat)
    ensures NoMatch(c, needle, a, a)
  {
  }

  lemma NoneLeft(cs: seq<seq<byte>>, k: nat, l: seq<byte>, bytes: seq<byte>, c: seq<byte>, needle: seq<byte>,
    from: nat, pos: nat)
    requires Left(cs, k, l, bytes, c, pos) && k + 1 == |cs| && |bytes| < |needle| && NoMatch(c, needle, from, pos)
    ensures NoMatch(c, needle, from, |c| + 1)
  {
  }

  lemma NoneBehind(c: seq<byte>, needle: seq<byte>, pos: nat)
    requires pos > |c| || (c == [] && needle != [])
    ensures NoMatch(c, needle, pos, |c| + 1)
  {
  }

  lemma AtOnce(c: seq<byte>, pos: nat)
    requires pos <= |c|
    ensures IsFirst(c, [], pos, Some(pos))
  {
  }

  // The least match from `pos` on, wherever the blocks begin and end. Only an empty needle in a buffer that has
  // been read up to behind its last block is not found.
  method FindFrom(buf: ByteBuf, needle: seq<byte>, pos: nat) returns (r: Option<nat>)
    requires buf.Valid()
    ensures if needle == [] && buf.idx == |buf.blocks| then r == None else IsFirst(buf.Contents(), needle, pos, r)
  {
    hide Left, NoMatch;
    ghost var c := buf.Contents();
    var found, k, off := buf.LocateIdx(pos);
    if !found {
      if needle != [] || buf.idx < |buf.blocks| { NoneBehind(c, needle, pos); }
      return None;
    }
    if needle == [] {
      AtOnce(c, pos);
      return Some(pos);
    }
    NoMatchEmpty(c, needle, pos);
    var bytes := buf.Piece(k);
    bytes := bytes[off..];
    ghost var l := LeftAt(buf.chunks, buf.idx, pos, k, off);
    var at: nat := pos;
    while true
      invariant k < |buf.blocks| && Left(buf.chunks, k, l, bytes, c, at)
      invariant pos <= at && NoMatch(c, needle, pos, at)
      decreases |buf.blocks| - k
    {
      r, bytes, at, l := FindInBlock(buf.chunks, needle, k, bytes, l, c, pos, at);
      if r.Some? { return; }
      if k + 1 >= |buf.blocks| {
        NoneLeft(buf.chunks, k, l, bytes, c, needle, pos, at);
        return None;
      }
      r := FindAcross(buf, needle, k, bytes, l, c, pos, at);
      if r.Some? { return; }
      at := at + |bytes|;
      bytes, l := NextToSearch(buf, k, bytes, l, c, at - |bytes|);
      k := k + 1;
    }
  }

  method Find(buf: ByteBuf, needle: seq<byte>) returns (r: Option<nat>)
    requires buf.Valid()
    ensures if needle == [] && buf.idx == |buf.blocks| then r == None else IsFirst(buf.Contents(), needle, 0, r)
  {
    r := FindFrom(buf, needle, 0);
  }

  // ---- rfind ----

  // No match ends behind position e.
  ghost predicate NoEnd(c: seq<byte>, needle: seq<byte>, e: nat) {
    forall p: nat :: MatchAt(c, needle, p) ==> p + |needle| <= e
  }

  // The last match that ends at position e or in front of it.
  ghost predicate IsLastBy(c: seq<byte>, needle: seq<byte>, e: nat, r: Option<nat>) {
    match r
    case Some(p) =>
      && MatchAt(c, needle, p) && p + |needle| <= e
      && forall q: nat :: MatchAt(c, needle, q) && q + |needle| <= e ==> q <= p
    case None => forall q: nat :: MatchAt(c, needle, q) ==> q + |needle| > e
  }

  lemma LastByEnd(c: seq<byte>, needle: seq<byte>, to: nat, r: Option<nat>)
    ensures IsLastBy(c, needle, to + |needle|, r) <==> IsLast(c, needle, to, r)
  {
  }

  // Bytes of block k, and the blocks in front of it, are still to be searched; `t` lies behind.
  ghost predicate LeftBack(cs: seq<seq<byte>>, idx: nat, k: nat, bytes: seq<byte>, t: seq<byte>, c: seq<byte>,
    rpos: nat) {
    idx <= k < |cs| && c == (Between(cs, idx, k) + bytes) + t && rpos == |Between(cs, idx, k)|
  }

  lemma InBlockBack(l: seq<byte>, bytes: seq<byte>, t: seq<byte>, needle: seq<byte>, p: nat)
    requires p + |needle| <= |bytes|
    ensures MatchAt((l + bytes) + t, needle, |l| + p) <==> MatchAt(bytes, needle, p)
  {
    MatchBehind(l, bytes, needle, p);
    MatchInFront(l + bytes, t, needle, |l| + p);
  }

  // Of the matches that are left, those that lie in `bytes`.
  method RFindInBlock(ghost cs: seq<seq<byte>>, ghost idx: nat, needle: seq<byte>, ghost k: nat, bytes: seq<byte>,
    ghost t: seq<byte>, ghost c: seq<byte>, rpos: nat)
    returns (r: Option<nat>, bytes': seq<byte>, ghost t': seq<byte>)
    requires needle != [] && LeftBack(cs, idx, k, bytes, t, c, rpos) && NoEnd(c, needle, rpos + |bytes|)
    ensures r.Some? ==> IsLastBy(c, needle, |c|, r)
    ensures r.None? ==>
      |bytes'| < |needle| && LeftBack(cs, idx, k, bytes', t', c, rpos) && NoEnd(c, needle, rpos + |bytes'|)
  {
    r, bytes', t' := None, bytes, t;
    if |bytes| >= |needle| {
      var w := LastWindow(bytes, needle);
      ghost var l := Between(cs, idx, k);
      forall p: nat | MatchAt(c, needle, p) && p >= rpos ensures w.Some? && p - rpos <= w.value {
        InBlockBack(l, bytes, t, needle, p - rpos);
      }
      if w.Some? {
        InBlockBack(l, bytes, t, needle, w.value);
        return Some(rpos + w.value), bytes, t;
      }
      var m := |needle| - 1;
      ShiftBack(l, bytes, t, m);
      bytes', t' := bytes[..m], bytes[m..] + t;
    }
  }

  lemma ShiftBack(l: seq<byte>, bytes: seq<byte>, t: seq<byte>, m: nat)
    requires m <= |bytes|
    ensures (l + bytes) + t == (l + bytes[..m]) + (bytes[m..] + t)
  {
  }

  lemma AcrossBack(l: seq<byte>, bytes: seq<byte>, t: seq<byte>, needle: seq<byte>, m: nat)
    requires m <= |bytes| && m <= |needle|
    ensures (|needle| - m <= |l| && MatchAt((l + bytes) + t, needle, |l| + m - |needle|))
      <==> bytes[..m] == needle[|needle| - m..] && IsSuffix(needle[..|needle| - m], l)
  {
    MatchAcrossBack(l, bytes, needle, m);
    if |needle| - m <= |l| { MatchInFront(l + bytes, t, needle, |l| + m - |needle|); }
  }

  // Of the matches that are left, those that end in `bytes`.
  method RFindAcross(buf: ByteBuf, needle: seq<byte>, k: nat, bytes: seq<byte>, ghost t: seq<byte>,
    ghost c: seq<byte>, rpos: nat)
    returns (r: Option<nat>)
    requires buf.Valid() && buf.idx < k && LeftBack(buf.chunks, buf.idx, k, bytes, t, c, rpos)
    requires |bytes| < |needle| && NoEnd(c, needle, rpos + |bytes|)
    ensures if r.Some? then IsLastBy(c, needle, |c|, r) else NoEnd(c, needle, rpos)
  {
    ghost var l := Between(buf.chunks, buf.idx, k);
    var m := |bytes|;
    while m > 0
      invariant 0 <= m <= |bytes|
      invariant NoEnd(c, needle, rpos + m)
    {
      AcrossBack(l, bytes, t, needle, m);
      forall p: nat | MatchAt(c, needle, p) && p + |needle| == rpos + m
        ensures p == |l| + m - |needle| && |needle| - m <= |l| { }
      if bytes[..m] == needle[|needle| - m..] {
        var here := EndsWithUpTo(buf, needle[..|needle| - m], k);
        if here { return Some(rpos + m - |needle|); }
      }
      m := m - 1;
    }
    r := None;
  }

  // The block in front; what has been searched lies behind it.
  method PreviousToSearch(buf: ByteBuf, k: nat, bytes: seq<byte>, ghost t: seq<byte>, ghost c: seq<byte>, rpos: nat)
    returns (next: seq<byte>, ghost t': seq<byte>)
    requires buf.Valid() && buf.idx < k && LeftBack(buf.chunks, buf.idx, k, bytes, t, c, rpos)
    ensures |next| <= rpos && LeftBack(buf.chunks, buf.idx, k - 1, next, t', c, rpos - |next|)
  {
    next := buf.Piece(k - 1);
    t' := bytes + t;
    assert (Between(buf.chunks, buf.idx, k) + bytes) + t == Between(buf.chunks, buf.idx, k) + (bytes + t);
  }

  // Where the search starts: c is what lies in front of position `end`.
  method LocateBack(buf: ByteBuf, end: nat) returns (k: nat, bytes: seq<byte>, rpos: nat, ghost c: seq<byte>)
    requires buf.Valid() && buf.idx < |buf.blocks|
    ensures c == buf.Contents()[..if end <= |buf.Contents()| then end else |buf.Contents()|]
    ensures LeftBack(buf.chunks, buf.idx, k, bytes, [], c, rpos) && rpos + |bytes| == |c|
  {
    var found, i, off := buf.LocateIdx(end);
    if found {
      k := i;
      bytes := buf.Piece(k);
      bytes, rpos := bytes[..off], end - off;
      Around(buf.chunks, buf.idx, i, off);
    } else {
      k := |buf.blocks| - 1;
      bytes := buf.Piece(k);
      FromAll(buf.chunks, buf.idx);
      assert end - off == |Between(buf.chunks, buf.idx, k)| + |bytes|;
      rpos := end - off - |bytes|;
    }
    c := Between(buf.chunks, buf.idx, k) + bytes;
  }

  lemma NoEndAtAll(cs: seq<seq<byte>>, idx: nat, bytes: seq<byte>, t: seq<byte>, c: seq<byte>, rpos: nat,
    needle: seq<byte>)
    requires LeftBack(cs, idx, idx, bytes, t, c, rpos) && |bytes| < |needle| && NoEnd(c, needle, rpos + |bytes|)
    ensures IsLastBy(c, needle, |c|, None)
  {
  }

  // Matches in front of position e.
  lemma InFrontOf(c: seq<byte>, needle: seq<byte>, e: nat, r: Option<nat>)
    requires IsLastBy(c[..Min(e, |c|)], needle, Min(e, |c|), r)
    ensures IsLastBy(c, needle, e, r)
  {
    var d := c[..Min(e, |c|)];
    assert c == d + c[|d|..];
    forall p: nat | p + |needle| <= |d| ensures MatchAt(c, needle, p) <==> MatchAt(d, needle, p) {
      MatchInFront(d, c[|d|..], needle, p);
    }
  }

  method RFindIn(buf: ByteBuf, needle: seq<byte>, end: nat) returns (r: Option<nat>)
    requires buf.Valid() && buf.idx < |buf.blocks| && needle != []
    ensures IsLastBy(buf.Contents(), needle, end, r)
  {
    hide LeftBack, NoEnd, IsLastBy, MatchAt;
    var k: nat, bytes: seq<byte>, rpos: nat;
    ghost var c: seq<byte>, t: seq<byte> := [], [];
    k, bytes, rpos, c := LocateBack(buf, end);
    NoEndInit(c, needle);
    while true
      invariant k < |buf.blocks| && LeftBack(buf.chunks, buf.idx, k, bytes, t, c, rpos)
      invariant NoEnd(c, needle, rpos + |bytes|)
      decreases k
    {
      r, bytes, t := RFindInBlock(buf.chunks, buf.idx, needle, k, bytes, t, c, rpos);
      if r.Some? { break; }
      if k == buf.idx {
        NoEndAtAll(buf.chunks, buf.idx, bytes, t, c, rpos, needle);
        break;
      }
      r := RFindAcross(buf, needle, k, bytes, t, c, rpos);
      if r.Some? { break; }
      bytes, t := PreviousToSearch(buf, k, bytes, t, c, rpos);
      k, rpos := k - 1, rpos - |bytes|;
    }
    InFrontOf(buf.Contents(), needle, end, r);
  }

  lemma NoEndInit(c: seq<byte>, needle: seq<byte>)
    ensures NoEnd(c, needle, |c|)
  {
  }

  // ---- rfind with all blocks read up ----

  // What a call comes to: an answer, a panic at `&self.blocks[self.idx..rpos]`, or an access in front of the first
  // block.
  datatype Answer = At(pos: Option<nat>) | SlicePanic | OutOfBlocks

  // The block has a match, or begins with an end of the needle.
  ghost predicate HasMatch(bytes: seq<byte>, needle: seq<byte>) {
    exists p: nat :: MatchAt(bytes, needle, p)
  }

  predicate BeginsAt(bytes: seq<byte>, needle: seq<byte>, m: nat) {
    m <= |bytes| && m < |needle| && bytes[..m] == needle[|needle| - m..]
  }

  ghost predicate Meets(bytes: seq<byte>, needle: seq<byte>) {
    HasMatch(bytes, needle) || exists m: nat :: m > 0 && BeginsAt(bytes, needle, m)
  }

  // Block k is the last that meets the needle.
  ghost predicate MeetsLast(cs: seq<seq<byte>>, needle: seq<byte>, k: nat) {
    k < |cs| && Meets(cs[k], needle) && forall j: nat :: k < j < |cs| ==> !Meets(cs[j], needle)
  }

  // What comes of a search that begins in front of the block to be read next, and so never meets that one: the place of
  // a match counted back from 0, in words.
  ghost predicate Astray(cs: seq<seq<byte>>, needle: seq<byte>, a: Answer) {
    match a
    case OutOfBlocks => forall k: nat :: k < |cs| ==> !Meets(cs[k], needle)
    case SlicePanic => exists k: nat :: MeetsLast(cs, needle, k) && !HasMatch(cs[k], needle)
    case At(None) => false
    case At(Some(r)) => exists k: nat, p: nat :: MeetsLast(cs, needle, k) && BackFrom(cs, needle, k, p, r)
  }

  ghost predicate BackFrom(cs: seq<seq<byte>>, needle: seq<byte>, k: nat, p: nat, r: nat)
    requires k < |cs|
  {
    IsLast(cs[k], needle, |cs[k]|, Some(p)) && r == (p - |From(cs, k)|) % WORD
  }

  lemma ModStep(x: int, y: int)
    ensures ((x % WORD) + y) % WORD == (x + y) % WORD
  {
    var q := (x + y) / WORD - x / WORD;
    assert (x % WORD) + y == q * WORD + (x + y) % WORD;
    ModUnique((x % WORD) + y, WORD, q, (x + y) % WORD);
  }

  // One block of that search.
  method MeetBlock(bytes: seq<byte>, needle: seq<byte>) returns (w: Option<nat>, meets: bool)
    requires needle != []
    ensures meets <==> Meets(bytes, needle)
    ensures (w.Some? <==> HasMatch(bytes, needle)) && (w.Some? ==> meets && IsLast(bytes, needle, |bytes|, w))
  {
    var head := bytes;
    if |bytes| >= |needle| {
      w := LastWindow(bytes, needle);
      if w.Some? {
        assert HasMatch(bytes, needle);
        return w, true;
      }
      head := bytes[..|needle| - 1];
    }
    w := None;
    assert forall m: nat {:trigger BeginsAt(bytes, needle, m)} :: BeginsAt(bytes, needle, m) ==>
      m <= |head| && head[..m] == bytes[..m];
    var m := |head|;
    while m > 0
      invariant 0 <= m <= |head|
      invariant forall j: nat :: m < j <= |head| ==> !BeginsAt(bytes, needle, j)
    {
      assert head[..m] == bytes[..m];
      if head[..m] == needle[|needle| - m..] {
        assert BeginsAt(bytes, needle, m);
        return None, true;
      }
      m := m - 1;
    }
    meets := false;
  }

  // The same loop as RFindIn; `idx == self.idx` never holds in it.
  method RFindPast(buf: ByteBuf, needle: seq<byte>) returns (a: Answer)
    requires buf.Valid() && buf.idx == |buf.blocks| > 0 && needle != []
    ensures Astray(buf.chunks, needle, a)
  {
    hide Meets, HasMatch, IsLast;
    var k, rpos: int := |buf.blocks|, 0;
    while k > 0
      invariant 0 <= k <= |buf.blocks| && rpos == (-|From(buf.chunks, k)|) % WORD
      invariant forall j: nat :: k <= j < |buf.chunks| ==> !Meets(buf.chunks[j], needle)
    {
      k := k - 1;
      var bytes := buf.Piece(k);
      assert |From(buf.chunks, k)| == |bytes| + |From(buf.chunks, k + 1)|;
      ModStep(-|From(buf.chunks, k + 1)|, -|bytes|);
      rpos := (rpos - |bytes|) % WORD;
      var w, meets := MeetBlock(bytes, needle);
      if meets {
        assert MeetsLast(buf.chunks, needle, k);
        if w.None? { return SlicePanic; }
        ModStep(-|From(buf.chunks, k)|, w.value);
        assert BackFrom(buf.chunks, needle, k, w.value, (rpos + w.value) % WORD);
        return At(Some((rpos + w.value) % WORD));
      }
    }
    a := OutOfBlocks;
  }

  // The greatest match up to `rpos`. The sum wraps around in a release build and panics in a debug build. With all
  // blocks read up, and a needle, the search goes astray.
  method RFindFrom(buf: ByteBuf, needle: seq<byte>, rpos: nat) returns (a: Answer)
    requires buf.Valid() && rpos <= USIZE_MAX
    ensures if buf.idx == |buf.blocks| > 0 && needle != [] then Astray(buf.chunks, needle, a)
      else a.At? && IsLastBy(buf.Contents(), needle, (rpos + |needle|) % WORD, a.pos)
    ensures (buf.idx < |buf.blocks| || buf.blocks == [] || needle == []) && rpos + |needle| <= USIZE_MAX ==>
      a.At? && IsLast(buf.Contents(), needle, rpos, a.pos)
  {
    hide Astray;
    var end := (rpos + |needle|) % WORD;
    if needle != [] && buf.idx == |buf.blocks| > 0 {
      a := RFindPast(buf, needle);
      return;
    }
    if needle == [] {
      var found, k, off := buf.LocateIdx(end);
      a := At(Some(if found then end else end - off));
    } else if buf.blocks == [] {
      a := At(None);
    } else {
      var r := RFindIn(buf, needle, end);
      a := At(r);
    }
    LastByEnd(buf.Contents(), needle, rpos, a.pos);
  }

  // The sum always wraps around, unless the needle is empty; so nothing is found.
  method RFind(buf: ByteBuf, needle: seq<byte>) returns (a: Answer)
    requires buf.Valid() && |needle| <= USIZE_MAX
    ensures if buf.idx == |buf.blocks| > 0 && needle != [] then Astray(buf.chunks, needle, a)
      else if needle == [] then a.At? && IsLast(buf.Contents(), [], USIZE_MAX, a.pos)
      else a == At(None)
  {
    hide Astray;
    a := RFindFrom(buf, needle, USIZE_MAX);
    if needle != [] { assert (USIZE_MAX + |needle|) % WORD == |needle| - 1; }
  }

  // One byte, read up: a search leaves the blocks.
  method RFindLeavesOneByte(needle: byte) returns (a: Answer)
    ensures a == OutOfBlocks
  {
    var bytes := new byte[1];
    var buf := new ByteBuf.FromVec(bytes, 1);
    var n := buf.Skip(2);
    buf.TidyIffWhole();
    assert |buf.chunks| == 1 && buf.chunks[0] == [];
    a := RFindFrom(buf, [needle], 0);
  }
}
