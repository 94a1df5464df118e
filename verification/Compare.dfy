// Ord for ByteBuf in src/buf/mod.rs: two chains of blocks are compared as flat sequences, however they are cut.
module Comparing {
  import opened Flats
  import opened Blocks
  import opened ByteBufs

  datatype Ordering = Less | Equal | Greater

  // <[u8]>::cmp
  function Compare(a: seq<byte>, b: seq<byte>): (r: Ordering) {
    if a == [] then (if b == [] then Equal else Less)
    else if b == [] then Greater
    else if a[0] < b[0] then Less
    else if a[0] > b[0] then Greater
    else Compare(a[1..], b[1..])
  }

  // ---- the order ----

  // At position k, the first where the two differ, `a` has the smaller byte or none.
  ghost predicate SmallerAt(a: seq<byte>, b: seq<byte>, k: nat) {
    k <= |a| && k < |b| && a[..k] == b[..k] && (k == |a| || a[k] < b[k])
  }

  ghost predicate Precedes(a: seq<byte>, b: seq<byte>) {
    exists k: nat :: SmallerAt(a, b, k)
  }

  lemma {:induction false} SmallerInTail(a: seq<byte>, b: seq<byte>)
    requires a != [] && b != [] && a[0] == b[0]
    ensures Precedes(a, b) <==> Precedes(a[1..], b[1..])
  {
    if k: nat :| SmallerAt(a, b, k) {
      assert k > 0 && a[1..][..k - 1] == a[..k][1..] && b[1..][..k - 1] == b[..k][1..];
      assert SmallerAt(a[1..], b[1..], k - 1);
    }
    if k: nat :| SmallerAt(a[1..], b[1..], k) {
      assert a[..k + 1] == [a[0]] + a[1..][..k] && b[..k + 1] == [b[0]] + b[1..][..k];
      assert SmallerAt(a, b, k + 1);
    }
  }

  lemma {:induction false} CompareIsLexicographic(a: seq<byte>, b: seq<byte>)
    ensures Compare(a, b) == Less <==> Precedes(a, b)
    ensures Compare(a, b) == Greater <==> Precedes(b, a)
    ensures Compare(a, b) == Equal <==> a == b
  {
    if a == [] || b == [] || a[0] != b[0] {
      if a != [] && (b == [] || b[0] < a[0]) { assert SmallerAt(b, a, 0); }
      if b != [] && (a == [] || a[0] < b[0]) { assert SmallerAt(a, b, 0); }
      if a != [] && b != [] { NotBoth(a, b); }
    } else {
      CompareIsLexicographic(a[1..], b[1..]);
      SmallerInTail(a, b);
      SmallerInTail(b, a);
      assert a == [a[0]] + a[1..] && b == [b[0]] + b[1..];
    }
  }

  lemma NotBoth(a: seq<byte>, b: seq<byte>)
    requires a != [] && b != [] && a[0] != b[0]
    ensures Precedes(a, b) <==> a[0] < b[0]
  {
    if a[0] < b[0] { assert SmallerAt(a, b, 0); }
  }

  lemma {:induction false} CompareSwaps(a: seq<byte>, b: seq<byte>)
    ensures Compare(b, a) == match Compare(a, b) case Less => Greater case Equal => Equal case Greater => Less
  {
    if a != [] && b != [] && a[0] == b[0] { CompareSwaps(a[1..], b[1..]); }
  }

  lemma {:induction false} CompareTransitive(a: seq<byte>, b: seq<byte>, c: seq<byte>)
    requires Compare(a, b) != Greater && Compare(b, c) != Greater
    ensures Compare(a, c) != Greater
    ensures Compare(a, c) == Equal ==> Compare(a, b) == Equal && Compare(b, c) == Equal
  {
    if a != [] && b != [] && c != [] && a[0] == b[0] == c[0] { CompareTransitive(a[1..], b[1..], c[1..]); }
  }

  // Sequences with equally long first parts.
  lemma {:induction false} CompareParts(a: seq<byte>, a': seq<byte>, b: seq<byte>, b': seq<byte>)
    requires |a| == |b|
    ensures Compare(a + a', b + b') == if Compare(a, b) == Equal then Compare(a', b') else Compare(a, b)
  {
    if a == [] {
      assert a + a' == a' && b + b' == b';
    } else {
      assert (a + a')[1..] == a[1..] + a' && (b + b')[1..] == b[1..] + b';
      if a[0] == b[0] { CompareParts(a[1..], a', b[1..], b'); }
    }
  }

  // The same, where the first part of the second sequence is the beginning of a longer slice.
  lemma CompareBeginning(s: seq<byte>, r: seq<byte>, t: seq<byte>, q: seq<byte>)
    requires |s| <= |t|
    ensures var o := Compare(s, t[..|s|]);
      Compare(s + r, t + q) == if o == Equal then Compare(r, t[|s|..] + q) else o
  {
    assert t + q == t[..|s|] + (t[|s|..] + q);
    CompareParts(s, r, t[..|s|], t[|s|..] + q);
  }

  lemma CompareBeginningBack(s: seq<byte>, r: seq<byte>, t: seq<byte>, q: seq<byte>)
    requires |t| <= |s|
    ensures var o := Compare(s[..|t|], t);
      Compare(s + r, t + q) == if o == Equal then Compare(s[|t|..] + r, q) else o
  {
    CompareSwaps(s + r, t + q);
    CompareBeginning(t, q, s, r);
    CompareSwaps(s[..|t|], t);
    CompareSwaps(s[|t|..] + r, q);
  }

  lemma CompareEmpty(a: seq<byte>)
    ensures Compare([], []) == Equal && (a != [] ==> Compare([], a) == Less && Compare(a, []) == Greater)
  {
  }

  // ---- cmp ----

  method NextSlice(buf: ByteBuf, i: nat) returns (more: bool, slice: seq<byte>, next: nat)
    requires buf.Valid() && i <= |buf.blocks|
    ensures more == (i < |buf.blocks|) && next == (if more then i + 1 else i)
    ensures From(buf.chunks, i) == slice + From(buf.chunks, next)
    ensures !more ==> slice == []
  {
    if i == |buf.blocks| { return false, [], i; }
    slice := buf.Piece(i);
    return true, slice, i + 1;
  }

  // What is left to be compared is a slice of each chain and the blocks from the i-th and the j-th on.
  method Cmp(a: ByteBuf, b: ByteBuf) returns (r: Ordering)
    requires a.Valid() && b.Valid()
    ensures r == Compare(a.Whole(), b.Whole())
    ensures a.Tidy() && b.Tidy() ==> r == Compare(a.Contents(), b.Contents())
  {
    hide Compare, AllApart;
    a.TidyIffWhole();
    b.TidyIffWhole();
    var none1, none2, i: nat, j: nat := false, false, 0, 0;
    var slice: seq<byte>, other: seq<byte> := [], [];
    assert slice + From(a.chunks, 0) == a.Whole() && other + From(b.chunks, 0) == b.Whole();
    while true
      invariant i <= |a.blocks| && j <= |b.blocks|
      invariant none1 ==> i == |a.blocks|
      invariant none2 ==> j == |b.blocks|
      invariant Compare(a.Whole(), b.Whole()) == Compare(slice + From(a.chunks, i), other + From(b.chunks, j))
      decreases |a.blocks| - i + |b.blocks| - j, !none1, !none2
    {
      if |slice| < |other| {
        CompareBeginning(slice, From(a.chunks, i), other, From(b.chunks, j));
        var ord := Compare(slice, other[..|slice|]);
        if ord != Equal { return ord; }
        other := other[|slice|..];
        var more;
        more, slice, i := NextSlice(a, i);
        CompareEmpty(other + From(b.chunks, j));
        if !more { return Less; }
      } else if |slice| > |other| {
        CompareBeginningBack(slice, From(a.chunks, i), other, From(b.chunks, j));
        var ord := Compare(slice[..|other|], other);
        if ord != Equal { return ord; }
        slice := slice[|other|..];
        var more;
        more, other, j := NextSlice(b, j);
        CompareEmpty(slice + From(a.chunks, i));
        if !more { return Greater; }
      } else {
        CompareParts(slice, From(a.chunks, i), other, From(b.chunks, j));
        var ord := Compare(slice, other);
        if ord != Equal { return ord; }
        CompareEmpty([]);
        if none1 && none2 { return Equal; }
        var more1, more2;
        more1, slice, i := NextSlice(a, i);
        if !more1 { none1 := true; }
        more2, other, j := NextSlice(b, j);
        if !more2 { none2 := true; }
      }
    }
  }

  // PartialEq
  method Eq(a: ByteBuf, b: ByteBuf) returns (r: bool)
    requires a.Valid() && b.Valid()
    ensures r <==> a.Whole() == b.Whole()
    ensures a.Tidy() && b.Tidy() ==> (r <==> a.Contents() == b.Contents())
  {
    a.TidyIffWhole();
    b.TidyIffWhole();
    CompareIsLexicographic(a.Whole(), b.Whole());
    var ord := Cmp(a, b);
    r := ord == Equal;
  }
}
