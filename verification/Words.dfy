/** Machine words: their size, powers of two, remainders and the bit operations. Remainders
    are wrapped in a function so that the solver meets them one at a time. */
module Words {
  // where a 64-bit unsigned long, size_t or uintptr_t wraps around
  const WORD: nat := 0x1_0000_0000_0000_0000

  ghost function Pow2(k: nat): (p: nat)
    ensures p >= 1
  {
    if k == 0 then 1 else 2 * Pow2(k - 1)
  }

  lemma {:induction false} PowOrder(i: nat, j: nat)
    requires i <= j
    ensures Pow2(i) <= Pow2(j)
  {
    if i < j { PowOrder(i, j - 1); }
  }

  lemma Dist(a: int, b: int, c: int)
    ensures a * (b + c) == a * b + a * c
  {}

  lemma Assoc(a: int, b: int, c: int)
    ensures a * (b * c) == (a * b) * c
  {}

  lemma ModUnique(x: int, m: int, q: int, r: int)
    requires 0 <= r < m && x == m * q + r
    ensures x % m == r
  {
    var q', r' := x / m, x % m;
    assert x == m * q' + r';
    Dist(m, q, -q');
    if q > q' {
      Grows(m, q - q');
    } else if q < q' {
      Dist(m, q', -q);
      Grows(m, q' - q);
    }
  }

  lemma {:induction false} Grows(m: int, d: int)
    requires m > 0 && d > 0
    ensures m * d >= m
  {
    if d > 1 {
      Grows(m, d - 1);
      Dist(m, d - 1, 1);
    }
  }

  lemma ModPlus(x: nat, m: nat, q: nat)
    requires m > 0
    ensures (x + m * q) % m == x % m
  {
    Dist(m, x / m, q);
    ModUnique(x + m * q, m, x / m + q, x % m);
  }

  ghost function Rem(x: nat, m: nat): (r: nat)
    requires m > 0
    ensures r < m
  {
    x % m
  }

  lemma RemSplit(x: nat, m: nat) returns (q: nat)
    requires m > 0
    ensures x == Rem(x, m) + m * q
  {
    q := x / m;
  }

  lemma RemPlus(x: nat, m: nat, q: nat)
    requires m > 0
    ensures Rem(x + m * q, m) == Rem(x, m)
  {
    ModPlus(x, m, q);
  }

  lemma RemIs(x: nat, m: nat, q: nat, r: nat)
    requires r < m && x == m * q + r
    ensures Rem(x, m) == r
  {
    ModUnique(x, m, q, r);
  }

  lemma {:induction false} PowSum(i: nat, j: nat)
    ensures Pow2(i + j) == Pow2(i) * Pow2(j)
  {
    if i > 0 {
      PowSum(i - 1, j);
      Assoc(2, Pow2(i - 1), Pow2(j));
    }
  }

  lemma PowTwice(k: nat, p: nat)
    requires Pow2(k) == p
    ensures Pow2(2 * k) == p * p
  {
    PowSum(k, k);
  }

  lemma WordIsPow()
    ensures WORD == Pow2(64) && Pow2(32) == 0x1_0000_0000
  {
    assert Pow2(2) == 4;
    hide Pow2;
    PowTwice(2, 4);
    PowTwice(4, 16);
    PowTwice(8, 0x100);
    PowTwice(16, 0x1_0000);
    PowTwice(32, 0x1_0000_0000);
  }

  // ---- bit operations

  function BitAnd(x: nat, y: nat): nat {
    if x == 0 || y == 0 then 0 else 2 * BitAnd(x / 2, y / 2) + (x % 2) * (y % 2)
  }

  function BitOr(x: nat, y: nat): nat {
    if x == 0 then y else if y == 0 then x
    else 2 * BitOr(x / 2, y / 2) + if x % 2 == 1 || y % 2 == 1 then 1 else 0
  }

  /** Masking with a power of two less one is reducing modulo that power. */
  lemma {:induction false} MaskIsMod(x: nat, k: nat)
    ensures BitAnd(x, Pow2(k) - 1) == Rem(x, Pow2(k))
  {
    hide Rem;
    if k == 0 {
      RemIs(x, 1, x, 0);
    } else if x == 0 {
      RemIs(x, Pow2(k), 0, 0);
    } else {
      var M := Pow2(k - 1);
      assert Pow2(k) == 2 * M;
      hide Pow2, BitAnd;
      MaskStep(x, M);
      MaskIsMod(x / 2, k - 1);
      DoubleRem(x, M);
    }
  }

  lemma MaskStep(x: nat, M: nat)
    requires M > 0
    ensures BitAnd(x, 2 * M - 1) == 2 * BitAnd(x / 2, M - 1) + x % 2
  {
    assert (2 * M - 1) / 2 == M - 1 && (2 * M - 1) % 2 == 1;
  }

  lemma DoubleRem(x: nat, M: nat)
    requires M > 0
    ensures Rem(x, 2 * M) == 2 * Rem(x / 2, M) + x % 2
  {
    hide Rem;
    var q := RemSplit(x / 2, M);
    Assoc(2, M, q);
    RemIs(x, 2 * M, q, 2 * Rem(x / 2, M) + x % 2);
  }

  lemma SetLowest(x: nat)
    requires x % 2 == 0
    ensures BitOr(x, 1) == x + 1
  {
    assert BitOr(x / 2, 0) == x / 2;
  }
}
