// Machine words as natural numbers: powers of two, and the bitwise operators the program uses on them.
module Bits {
  const WORD: nat := 0x1_0000_0000_0000_0000
  const USIZE_MAX: nat := 0xFFFF_FFFF_FFFF_FFFF

  function Min(x: nat, y: nat): (r: nat) { if x < y then x else y }

  function Pow2(k: nat): (p: nat)
    ensures p > 0
  {
    if k == 0 then 1 else 2 * Pow2(k - 1)
  }

  // x & y
  function And(x: nat, y: nat): (r: nat) {
    if x == 0 || y == 0 then 0 else (x % 2) * (y % 2) + 2 * And(x / 2, y / 2)
  }

  // x | y
  function Or(x: nat, y: nat): (r: nat)
    decreases x + y
  {
    if x == 0 then y
    else if y == 0 then x
    else (if x % 2 + y % 2 > 0 then 1 else 0) + 2 * Or(x / 2, y / 2)
  }

  // x >> k
  function Shr(x: nat, k: nat): (r: nat)
    decreases k
  {
    if k == 0 then x else Shr(x / 2, k - 1)
  }

  // x << k, with nothing lost, and the low k bits of x
  function Doubled(x: nat, k: nat): (r: nat)
    decreases k
  {
    if k == 0 then x else Doubled(2 * x, k - 1)
  }

  function LowBits(x: nat, k: nat): (r: nat)
    decreases k
  {
    if k == 0 then 0 else x % 2 + 2 * LowBits(x / 2, k - 1)
  }

  lemma {:induction false} DoubledIs(x: nat, k: nat)
    ensures Doubled(x, k) == x * Pow2(k)
    decreases k
  {
    if k > 0 {
      DoubledIs(2 * x, k - 1);
      assert 2 * x * Pow2(k - 1) == x * (2 * Pow2(k - 1));
    }
  }

  lemma {:induction false} LowBitsIs(x: nat, k: nat)
    ensures LowBits(x, k) == x % Pow2(k)
    decreases k
  {
    if k > 0 {
      LowBitsIs(x / 2, k - 1);
      HalfMod(x, Pow2(k - 1));
    }
  }

  lemma {:induction false} ShrAdd(x: nat, j: nat, k: nat)
    ensures Shr(x, j + k) == Shr(Shr(x, j), k)
    decreases j
  {
    if j > 0 { ShrAdd(x / 2, j - 1, k); }
  }

  lemma ShrSeven(x: nat)
    ensures Shr(x, 7) == x / 128
  {
    assert x / 2 / 2 / 2 / 2 / 2 / 2 / 2 == x / 128;
  }

  // Masking with 2^k - 1 is the remainder by 2^k.
  lemma {:induction false} MaskIsMod(x: nat, k: nat)
    ensures And(x, Pow2(k) - 1) == x % Pow2(k)
  {
    if k > 0 {
      var p, m: nat := Pow2(k - 1), Pow2(k) - 1;
      calc {
        And(x, m);
        { AndStep(x, m); }
        x % 2 + 2 * And(x / 2, p - 1);
        { MaskIsMod(x / 2, k - 1); }
        x % 2 + 2 * (x / 2 % p);
        { HalfMod(x, p); }
        x % (2 * p);
      }
    }
  }

  lemma AndStep(x: nat, y: nat)
    ensures And(x, y) == (x % 2) * (y % 2) + 2 * And(x / 2, y / 2)
  {
  }

  lemma HalfMod(x: nat, p: nat)
    requires p > 0
    ensures x % (2 * p) == x % 2 + 2 * (x / 2 % p)
  {
    var h, q := x / 2, x / 2 / p;
    assert h == q * p + h % p;
    assert x == q * (2 * p) + (x % 2 + 2 * (h % p));
    ModUnique(x, 2 * p, q, x % 2 + 2 * (h % p));
  }

  lemma ModUnique(x: int, n: nat, q: int, r: nat)
    requires n > 0 && r < n && x == q * n + r
    ensures x % n == r && x / n == q
  {
    var d, e := x / n - q, r - x % n;
    assert d * n == e && 0 - n < e < n;
    assert d == 0 by { SmallMultiple(d, n); }
  }

  lemma SmallMultiple(d: int, n: nat)
    requires 0 - n < d * n < n
    ensures d == 0
  {
  }

  // Bits that do not meet can be or-ed by adding.
  lemma {:induction false} OrIsAdd(x: nat, g: nat, k: nat)
    requires x < Pow2(k)
    ensures Or(x, g * Pow2(k)) == x + g * Pow2(k)
  {
    if k > 0 && x > 0 && g > 0 {
      var p := Pow2(k - 1);
      assert g * Pow2(k) == 2 * (g * p);
      assert (2 * (g * p)) / 2 == g * p;
      OrIsAdd(x / 2, g, k - 1);
    }
  }

  // The least k with c <= 2^k; `usize::next_power_of_two(c)` is 2 to this power.
  function CeilLog2(c: nat): (k: nat)
    ensures c <= Pow2(k) && (k == 0 || Pow2(k - 1) < c)
  {
    CeilLog2From(c, 0)
  }

  function CeilLog2From(c: nat, j: nat): (k: nat)
    requires j == 0 || Pow2(j - 1) < c
    ensures c <= Pow2(k) && (k == 0 || Pow2(k - 1) < c)
    decreases c - Pow2(j)
  {
    if c <= Pow2(j) then j else CeilLog2From(c, j + 1)
  }

  lemma {:induction false} Pow2Add(a: nat, b: nat)
    ensures Pow2(a + b) == Pow2(a) * Pow2(b)
  {
    if a > 0 {
      Pow2Add(a - 1, b);
      assert Pow2(a + b) == 2 * (Pow2(a - 1) * Pow2(b)) == Pow2(a) * Pow2(b);
    }
  }

  lemma {:induction false} Pow2Monotone(a: nat, b: nat)
    requires a <= b
    ensures Pow2(a) <= Pow2(b)
  {
    if a < b { Pow2Monotone(a, b - 1); }
  }
}
