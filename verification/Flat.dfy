// Byte sequences held in pieces, and what the flat sequence they stand for is.
module Flats {
  type byte = x: int | 0 <= x < 256

  // The bytes of the pieces from the i-th on.
  function From(cs: seq<seq<byte>>, i: nat): (r: seq<byte>)
    decreases |cs| - i
  {
    if i >= |cs| then [] else cs[i] + From(cs, i + 1)
  }

  function Flat(cs: seq<seq<byte>>): (r: seq<byte>) {
    From(cs, 0)
  }

  // The bytes of the pieces i to j - 1.
  function Between(cs: seq<seq<byte>>, i: nat, j: nat): (r: seq<byte>)
    requires i <= j <= |cs|
    decreases j
  {
    if i == j then [] else Between(cs, i, j - 1) + cs[j - 1]
  }

  lemma {:induction false} FromSplits(cs: seq<seq<byte>>, i: nat, j: nat)
    requires i <= j <= |cs|
    ensures From(cs, i) == Between(cs, i, j) + From(cs, j)
    decreases j
  {
    if i < j {
      FromSplits(cs, i, j - 1);
      assert (Between(cs, i, j - 1) + cs[j - 1]) + From(cs, j) == Between(cs, i, j - 1) + (cs[j - 1] + From(cs, j));
    }
  }

  lemma {:induction false} FromShift(cs: seq<seq<byte>>, ds: seq<seq<byte>>, i: nat, j: nat)
    requires |cs| - i == |ds| - j && i <= |cs| && j <= |ds|
    requires forall k :: i <= k < |cs| ==> cs[k] == ds[k - i + j]
    ensures From(cs, i) == From(ds, j)
    decreases |cs| - i
  {
    if i < |cs| {
      assert cs[i] == ds[j];
      FromShift(cs, ds, i + 1, j + 1);
    }
  }

  lemma {:induction false} BetweenSame(cs: seq<seq<byte>>, ds: seq<seq<byte>>, i: nat, j: nat)
    requires i <= j <= |cs| && j <= |ds|
    requires forall k :: i <= k < j ==> cs[k] == ds[k]
    ensures Between(cs, i, j) == Between(ds, i, j)
    decreases j
  {
    if i < j { BetweenSame(cs, ds, i, j - 1); }
  }

  lemma {:induction false} FromAll(cs: seq<seq<byte>>, i: nat)
    requires i <= |cs|
    ensures From(cs, i) == Between(cs, i, |cs|)
  {
    FromSplits(cs, i, |cs|);
  }

  lemma {:induction false} BetweenEmpty(cs: seq<seq<byte>>, i: nat, j: nat)
    requires i <= j <= |cs|
    ensures Between(cs, i, j) == [] <==> forall k :: i <= k < j ==> cs[k] == []
    decreases j
  {
    if i < j { BetweenEmpty(cs, i, j - 1); }
  }

  // The pieces in front of the i-th are empty.
  ghost predicate ReadAway(cs: seq<seq<byte>>, i: nat) {
    forall k :: 0 <= k < i && k < |cs| ==> cs[k] == []
  }

  lemma LastGrows(cs: seq<seq<byte>>, i: nat, x: seq<byte>)
    requires i < |cs|
    ensures From(cs[|cs| - 1 := cs[|cs| - 1] + x], i) == From(cs, i) + x
  {
    var k := |cs| - 1;
    var ds := cs[k := cs[k] + x];
    FromAll(cs, i);
    FromAll(ds, i);
    BetweenSame(cs, ds, i, k);
  }

  lemma FirstGrows(cs: seq<seq<byte>>, x: seq<byte>)
    requires cs != []
    ensures From(cs[0 := x + cs[0]], 0) == x + From(cs, 0)
  {
    FromShift(cs[0 := x + cs[0]], cs, 1, 1);
  }

  // Pieces put in at the end or at the front.
  lemma FromMore(cs: seq<seq<byte>>, ds: seq<seq<byte>>, i: nat)
    requires i <= |cs|
    ensures From(cs + ds, i) == From(cs, i) + From(ds, 0)
  {
    FromSplits(cs + ds, i, |cs|);
    FromAll(cs, i);
    BetweenSame(cs, cs + ds, i, |cs|);
    FromShift(cs + ds, ds, |cs|, 0);
  }

  lemma FromFew(a: seq<byte>, b: seq<byte>)
    ensures From([a], 0) == a && From([a, b], 0) == a + b
  {
    assert From([a], 1) == [] && From([a, b], 2) == [] && From([a, b], 1) == b;
  }

  // Position |Between(cs, i, j)| + off falls into piece j.
  lemma Around(cs: seq<seq<byte>>, i: nat, j: nat, off: nat)
    requires i <= j < |cs| && off <= |cs[j]|
    ensures var pos, c := |Between(cs, i, j)| + off, From(cs, i);
      pos <= |c| && c[..pos] == Between(cs, i, j) + cs[j][..off] && c[pos..] == cs[j][off..] + From(cs, j + 1)
  {
    FromSplits(cs, i, j);
    Join3(Between(cs, i, j), cs[j], From(cs, j + 1), off);
  }

  lemma Join3(l: seq<byte>, c: seq<byte>, r: seq<byte>, off: nat)
    requires off <= |c|
    ensures (l + (c + r))[..|l| + off] == l + c[..off]
    ensures (l + (c + r))[|l| + off..] == c[off..] + r
  {
  }
}
