// Unsigned LEB128 (section 7.6 of the DWARF 5 standard), and the way src/buf/codec/u64/varint.rs puts a number
// together.
module Leb {
  import opened Bits
  import opened Flats

  // ---- the format ----

  function Encode(v: nat): (r: seq<byte>)
    ensures r != []
  {
    if v < 128 then [v] else [v % 128 + 128] + Encode(v / 128)
  }

  // The last byte, and no other, has the high bit clear.
  ghost predicate Terminated(bs: seq<byte>) {
    bs != [] && bs[|bs| - 1] < 128 && forall i :: 0 <= i < |bs| - 1 ==> bs[i] >= 128
  }

  // The number the groups of seven bits stand for, the low group first.
  function Number(bs: seq<byte>): (r: nat) {
    if bs == [] then 0 else bs[0] % 128 + 128 * Number(bs[1..])
  }

  lemma {:induction false} EncodeStandsFor(v: nat)
    ensures Terminated(Encode(v)) && Number(Encode(v)) == v
  {
    if v >= 128 {
      EncodeStandsFor(v / 128);
      var e := Encode(v);
      assert e[1..] == Encode(v / 128);
      forall i | 0 <= i < |e| - 1 ensures e[i] >= 128 { assert i > 0 ==> e[i] == e[1..][i - 1]; }
      assert e[|e| - 1] == e[1..][|e| - 2];
    } else {
      assert Number([v][1..]) == 0;
    }
  }

  // The groups from the k-th on are those of the number shifted right by 7 * k.
  lemma {:induction false} EncodeFrom(v: nat, k: nat)
    requires k < |Encode(v)|
    ensures Encode(v)[k..] == Encode(Shr(v, 7 * k))
  {
    if k > 0 {
      assert Encode(v)[k..] == Encode(v / 128)[k - 1..];
      EncodeFrom(v / 128, k - 1);
      ShrSeven(v);
      ShrAdd(v, 7, 7 * (k - 1));
    }
  }

  // Nothing shorter stands for the same number, and nothing else of the same length.
  lemma {:induction false} EncodeIsShortest(bs: seq<byte>)
    requires Terminated(bs)
    ensures |Encode(Number(bs))| <= |bs|
    ensures |Encode(Number(bs))| == |bs| ==> Encode(Number(bs)) == bs
  {
    var n := Number(bs);
    if |bs| == 1 {
      assert bs == [bs[0]] && Number(bs[1..]) == 0;
    } else {
      EncodeIsShortest(bs[1..]);
      assert n / 128 == Number(bs[1..]) && n % 128 == bs[0] % 128;
      if n >= 128 { assert bs == [bs[0]] + bs[1..]; }
    }
  }

  // Only one beginning of a sequence is terminated.
  lemma TerminatedOnce(a: seq<byte>, b: seq<byte>, r: seq<byte>, s: seq<byte>)
    requires Terminated(a) && Terminated(b) && a + r == b + s
    ensures a == b && r == s
  {
    assert a == (a + r)[..|a|] && b == (b + s)[..|b|];
    assert r == (a + r)[|a|..] && s == (b + s)[|b|..];
  }

  lemma {:induction false} NumberOfMore(bs: seq<byte>, b: byte)
    ensures Number(bs + [b]) == Number(bs) + b % 128 * Pow2(7 * |bs|)
    ensures Number(bs) < Pow2(7 * |bs|)
  {
    if bs == [] {
      assert Number(([] + [b])[1..]) == 0;
    } else {
      assert (bs + [b])[1..] == bs[1..] + [b];
      NumberOfMore(bs[1..], b);
      GroupUp(|bs[1..]|, b % 128, Number(bs[1..]), bs[0] % 128);
    }
  }

  lemma GroupUp(n: nat, g: nat, x: nat, low: nat)
    requires x < Pow2(7 * n) && low < 128
    ensures 128 * (x + g * Pow2(7 * n)) == 128 * x + g * Pow2(7 * (n + 1))
    ensures low + 128 * x < Pow2(7 * (n + 1))
  {
    Pow2Add(7, 7 * n);
    assert Pow2(7) == 128;
    var p := Pow2(7 * n);
    assert 128 * (g * p) == g * (128 * p);
  }

  // ---- putting it together in a machine word of w bits ----

  predicate Width(w: nat) {
    w == 16 || w == 32 || w == 64
  }

  // wrapping_shl: the distance is taken modulo the width, and what is shifted out is lost.
  function Shl(x: nat, n: nat, w: nat): (r: nat)
    requires Width(w)
  {
    LowBits(Doubled(x, Distance(n, w)), w)
  }

  function Distance(n: nat, w: nat): (r: nat)
    requires Width(w)
  {
    if w == 16 then n % 16 else if w == 32 then n % 32 else n % 64
  }

  // What `v` is after these bytes.
  function Gathered(bs: seq<byte>, w: nat): (r: nat)
    requires Width(w)
  {
    if bs == [] then 0
    else Or(Gathered(bs[..|bs| - 1], w), Shl(And(bs[|bs| - 1], 0x7F), 7 * (|bs| - 1), w))
  }

  lemma MaskLow(b: nat)
    ensures And(b, 0x7F) == b % 128
  {
    MaskIsMod(b, 7);
    assert Pow2(7) == 128;
  }

  // The part of x + g * p that lies below q * p.
  lemma TopGroup(x: nat, g: nat, p: nat, q: nat)
    requires x < p && q > 0
    ensures q * p > 0 && (x + g * p) % (q * p) == x + g % q * p
  {
    Parts(g, p, q);
    Below(x, g % q, p, q);
    ModUnique(x + g * p, q * p, g / q, x + g % q * p);
  }

  lemma Parts(g: nat, p: nat, q: nat)
    requires q > 0
    ensures g * p == g / q * (q * p) + g % q * p
  {
    calc {
      g * p;
      (g / q * q + g % q) * p;
      g / q * q * p + g % q * p;
      g / q * (q * p) + g % q * p;
    }
  }

  lemma Below(x: nat, h: nat, p: nat, q: nat)
    requires x < p && h < q
    ensures x + h * p < q * p
  {
    assert (h + 1) * p <= q * p;
  }

  // A shift within the width keeps what fits, in its place.
  lemma ShlFits(g: nat, n: nat, w: nat)
    requires Width(w) && n < w
    ensures Shl(g, n, w) == g % Pow2(w - n) * Pow2(n)
  {
    hide Pow2, LowBits, Doubled;
    SmallMod(n, w);
    DoubledIs(g, n);
    LowBitsIs(g * Pow2(n), w);
    Pow2Add(w - n, n);
    TopGroup(0, g, Pow2(n), Pow2(w - n));
  }

  // One group more, at its place within the word.
  lemma OneMore(x: nat, b: byte, n: nat, w: nat)
    requires Width(w) && x < Pow2(n) && n < w
    ensures Or(x, Shl(And(b, 0x7F), n, w)) == (x + b % 128 * Pow2(n)) % Pow2(w)
  {
    hide Pow2, And, Or, Shl;
    var g, p, q := b % 128, Pow2(n), Pow2(w - n);
    MaskLow(b);
    ShlFits(g, n, w);
    OrIsAdd(x, g % q, n);
    Pow2Add(w - n, n);
    TopGroup(x, g, p, q);
  }

  // While the groups begin within the word, it holds the number they stand for, as far as it fits.
  lemma {:induction false} GatheredIsNumber(bs: seq<byte>, w: nat)
    requires Width(w) && (bs == [] || 7 * (|bs| - 1) < w)
    ensures Gathered(bs, w) == Number(bs) % Pow2(w)
  {
    hide Pow2, And, Or, Shl;
    if bs != [] {
      var init, b, n := bs[..|bs| - 1], bs[|bs| - 1], 7 * (|bs| - 1);
      GatheredIsNumber(init, w);
      assert bs == init + [b];
      NumberOfMore(init, b);
      Pow2Monotone(n, w);
      SmallMod(Number(init), Pow2(w));
      OneMore(Number(init), b, n, w);
    }
  }

  lemma SmallMod(x: nat, m: nat)
    requires x < m
    ensures x % m == x
  {
  }

  lemma {:induction false} EncodeLength(v: nat, n: nat)
    requires v < Pow2(7 * n) && n > 0
    ensures |Encode(v)| <= n
  {
    if v >= 128 {
      assert Pow2(7) == 128;
      Pow2Add(7, 7 * (n - 1));
      if n == 1 { assert false; }
      EncodeLength(v / 128, n - 1);
    }
  }

  lemma EncodeWithin(v: nat, w: nat)
    requires Width(w) && v < Pow2(w)
    ensures 7 * (|Encode(v)| - 1) < w
  {
    var n := (w + 6) / 7;
    Pow2Monotone(w, 7 * n);
    EncodeLength(v, n);
  }

  // An encoded number is put together again, whatever follows.
  lemma GathersBack(taken: seq<byte>, left: seq<byte>, v: nat, rest: seq<byte>, w: nat)
    requires Width(w) && v < Pow2(w) && Terminated(taken) && taken + left == Encode(v) + rest
    ensures taken == Encode(v) && left == rest && Gathered(taken, w) == v
  {
    EncodeStandsFor(v);
    TerminatedOnce(taken, Encode(v), left, rest);
    EncodeWithin(v, w);
    GatheredIsNumber(taken, w);
    SmallMod(v, Pow2(w));
  }
}
