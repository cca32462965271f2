/** Why the generator of tests/greatest.h visits every residue before it repeats one.

    The state goes from x to a*x + c modulo a power of two m. With a = 1 modulo 4 and c odd
    this has full period m from every start. The proof looks at the iterates without the
    modulus: 2^k steps add 2^k modulo 2^(k+1). */
module Lcg {
  import opened Words

  /** t steps from x, without reducing. */
  ghost function Iter(a: nat, c: nat, t: nat, x: nat): nat {
    if t == 0 then x else a * Iter(a, c, t - 1, x) + c
  }

  ghost function Mult(a: nat, t: nat): nat { if t == 0 then 1 else a * Mult(a, t - 1) }

  ghost function Add(a: nat, c: nat, t: nat): nat { if t == 0 then 0 else a * Add(a, c, t - 1) + c }

  lemma {:induction false} IterAffine(a: nat, c: nat, t: nat, x: nat)
    ensures Iter(a, c, t, x) == Mult(a, t) * x + Add(a, c, t)
  {
    if t > 0 {
      IterAffine(a, c, t - 1, x);
      var p, q := Mult(a, t - 1), Add(a, c, t - 1);
      Dist(a, p * x, q);
      Assoc(a, p, x);
    }
  }

  lemma {:induction false} IterSum(a: nat, c: nat, s: nat, t: nat, x: nat)
    ensures Iter(a, c, s + t, x) == Iter(a, c, s, Iter(a, c, t, x))
  {
    if s > 0 { IterSum(a, c, s - 1, t, x); }
  }

  lemma {:induction false} AffineSum(a: nat, c: nat, s: nat, t: nat)
    ensures Mult(a, s + t) == Mult(a, s) * Mult(a, t)
    ensures Add(a, c, s + t) == Mult(a, s) * Add(a, c, t) + Add(a, c, s)
  {
    if s > 0 {
      AffineSum(a, c, s - 1, t);
      var p, q, u, v := Mult(a, s - 1), Add(a, c, s - 1), Mult(a, t), Add(a, c, t);
      Assoc(a, p, u);
      Dist(a, p * v, q);
      Assoc(a, p, v);
    }
  }

  /** 2^k steps multiply by 1 modulo 2^(k+2) and add an odd multiple of 2^k. */
  lemma {:induction false} Doubling(a: nat, c: nat, k: nat) returns (u: nat, v: nat)
    requires a % 4 == 1 && c % 2 == 1
    ensures Mult(a, Pow2(k)) == 1 + 4 * Pow2(k) * u
    ensures Add(a, c, Pow2(k)) == Pow2(k) * (2 * v + 1)
  {
    if k == 0 {
      u, v := a / 4, c / 2;
      assert Mult(a, 1) == a * Mult(a, 0) && Add(a, c, 1) == a * Add(a, c, 0) + c;
    } else {
      var M := Pow2(k - 1);
      var u', v' := Doubling(a, c, k - 1);
      u, v := DoublingStep(a, c, M, u', v');
    }
  }

  lemma DoublingStep(a: nat, c: nat, M: nat, u: nat, v: nat) returns (u': nat, v': nat)
    requires Mult(a, M) == 1 + 4 * M * u && Add(a, c, M) == M * (2 * v + 1)
    ensures Mult(a, 2 * M) == 1 + 4 * (2 * M) * u' && Add(a, c, 2 * M) == (2 * M) * (2 * v' + 1)
  {
    hide *;
    u', v' := u + 2 * M * u * u, v + M * u * (2 * v + 1);
    AffineSum(a, c, M, M);
    assert M + M == 2 * M;
    Square(M, u, Mult(a, M));
    Odd(M, u, v, Mult(a, M), Add(a, c, M));
  }

  lemma Square(M: nat, u: nat, p: nat)
    requires p == 1 + 4 * M * u
    ensures p * p == 1 + 4 * (2 * M) * (u + 2 * M * u * u)
  {
    var z := M * u;
    assert 4 * M * u == 4 * z;
    assert (1 + 4 * z) * (1 + 4 * z) == 1 + 8 * z + 16 * (z * z);
    assert 2 * M * u * u == 2 * z * u;
    assert M * (2 * z * u) == 2 * (z * z);
    assert 4 * (2 * M) * (u + 2 * M * u * u) == 8 * (M * (u + 2 * z * u)) == 8 * (M * u + M * (2 * z * u));
  }

  lemma Odd(M: nat, u: nat, v: nat, p: nat, q: nat)
    requires p == 1 + 4 * M * u && q == M * (2 * v + 1)
    ensures p * q + q == (2 * M) * (2 * (v + M * u * (2 * v + 1)) + 1)
  {
    var z, w := M * u, 2 * v + 1;
    assert 4 * M * u == 4 * z;
    assert (1 + 4 * z) * (M * w) + M * w == (2 + 4 * z) * (M * w);
    assert 2 * (v + z * w) + 1 == w + 2 * (z * w);
    assert (2 + 4 * z) * (M * w) == 2 * (M * w) + 4 * (z * (M * w));
    assert z * (M * w) == M * (z * w);
    assert (2 * M) * (w + 2 * (z * w)) == 2 * (M * w) + 4 * (M * (z * w));
  }

  /** 2^k steps lead to x + 2^k, as far as the lowest k + 1 bits go. */
  lemma HalfWay(a: nat, c: nat, k: nat, x: nat) returns (q: nat)
    requires a % 4 == 1 && c % 2 == 1
    ensures Iter(a, c, Pow2(k), x) == x + Pow2(k) + (2 * Pow2(k)) * q
  {
    var u, v := Doubling(a, c, k);
    IterAffine(a, c, Pow2(k), x);
    q := 2 * u * x + v;
    HalfWaySum(Pow2(k), u, v, x);
  }

  lemma HalfWaySum(M: nat, u: nat, v: nat, x: nat)
    ensures (1 + 4 * M * u) * x + M * (2 * v + 1) == x + M + (2 * M) * (2 * u * x + v)
  {
    var z := u * x;
    assert 4 * M * u * x == 4 * (M * z) by { Assoc(M, u, x); }
    Dist(M, 2 * v, 1);
    assert M * (2 * v) == 2 * (M * v);
    Dist(2 * M, 2 * z, v);
    assert (2 * M) * (2 * z) == 4 * (M * z) && (2 * M) * v == 2 * (M * v);
    assert 2 * u * x == 2 * z;
  }

  /** Dropping the highest bit of a residue. */
  lemma ModHalf(x: nat, M: nat)
    requires M > 0
    ensures x % M == if x % (2 * M) < M then x % (2 * M) else x % (2 * M) - M
  {
    var p, r := x / (2 * M), x % (2 * M);
    Assoc(M, 2, p);
    if r < M {
      ModUnique(x, M, 2 * p, r);
    } else {
      Dist(M, 2 * p, 1);
      ModUnique(x, M, 2 * p + 1, r - M);
    }
  }

  lemma ModShift(x: nat, M: nat)
    requires M > 0
    ensures (x + M) % (2 * M) != x % (2 * M)
  {
    var r, q := x % (2 * M), x / (2 * M);
    if r < M {
      ModUnique(x + M, 2 * M, q, r + M);
    } else {
      Dist(2 * M, q, 1);
      ModUnique(x + M, 2 * M, q + 1, r - M);
    }
  }

  lemma SameHalf(x: nat, y: nat, M: nat)
    requires M > 0 && Rem(x, 2 * M) == Rem(y, 2 * M)
    ensures Rem(x, M) == Rem(y, M)
  {
    ModHalf(x, M);
    ModHalf(y, M);
  }

  /** M and any number of times 2M further on: the highest bit has changed and no other. */
  lemma Shifted(x: nat, M: nat, q: nat)
    requires M > 0
    ensures var y := x + M + (2 * M) * q; Rem(y, M) == Rem(x, M) && Rem(y, 2 * M) != Rem(x, 2 * M)
  {
    ModPlus(x + M, 2 * M, q);
    ModShift(x, M);
    Assoc(M, 2, q);
    Dist(M, 1, 2 * q);
    ModPlus(x, M, 1 + 2 * q);
  }

  /** Fewer than 2^k steps never lead back to the same residue modulo 2^k. */
  lemma {:induction false} NoRepeat(a: nat, c: nat, k: nat, x: nat, i: nat, j: nat)
    requires a % 4 == 1 && c % 2 == 1 && i < j < i + Pow2(k)
    ensures Residue(a, c, k, x, i) != Residue(a, c, k, x, j)
    decreases k
  {
    assert k > 0;
    var M := Pow2(k - 1);
    assert Pow2(k) == 2 * M;
    hide Pow2, Rem, Iter;
    var xi, xj := Iter(a, c, i, x), Iter(a, c, j, x);
    if Rem(xi, 2 * M) == Rem(xj, 2 * M) {
      SameHalf(xi, xj, M);
      if j - i < M {
        NoRepeat(a, c, k - 1, x, i, j);
      } else {
        var r := j - M;
        IterSum(a, c, M, r, x);
        var q := HalfWay(a, c, k - 1, Iter(a, c, r, x));
        Shifted(Iter(a, c, r, x), M, q);
        if r > i { NoRepeat(a, c, k - 1, x, i, r); }
      }
    }
  }

  /** The residue after t steps. */
  ghost function Residue(a: nat, c: nat, k: nat, x: nat, t: nat): nat { Rem(Iter(a, c, t, x), Pow2(k)) }

  ghost predicate Visited(a: nat, c: nat, k: nat, x: nat, v: nat) {
    exists i :: 1 <= i <= Pow2(k) && Residue(a, c, k, x, i) == v
  }

  /** Steps 1 to m visit each of the m residues exactly once, whatever the start. */
  lemma FullPeriod(a: nat, c: nat, k: nat, x: nat)
    requires a % 4 == 1 && c % 2 == 1
    ensures forall i, j :: 1 <= i < j <= Pow2(k) ==> Residue(a, c, k, x, i) != Residue(a, c, k, x, j)
    ensures forall v: nat :: v < Pow2(k) ==> Visited(a, c, k, x, v)
  {
    hide Rem, Iter, Pow2;
    var m := Pow2(k);
    forall i, j | 1 <= i < j <= m ensures Residue(a, c, k, x, i) != Residue(a, c, k, x, j) {
      NoRepeat(a, c, k, x, i, j);
    }
    var s := seq(m, n requires 0 <= n => Residue(a, c, k, x, n + 1));
    forall v: nat | v < m ensures Visited(a, c, k, x, v) {
      Onto(s, m, v);
      var n :| 0 <= n < m && s[n] == v;
      assert Residue(a, c, k, x, n + 1) == v;
    }
  }

  /** m different values below m are all the values below m. */
  lemma Onto(s: seq<nat>, m: nat, v: nat)
    requires |s| == m && (forall n :: 0 <= n < m ==> s[n] < m)
    requires forall i, j :: 0 <= i < j < m ==> s[i] != s[j]
    requires v < m
    ensures v in s
  {
    Below(m);
    Different(s);
    ValuesAre(s);
    if v !in s {
      forall w | w in Values(s) ensures w in Upto(m) - {v} {}
      Subset(Values(s), Upto(m) - {v});
    }
  }

  ghost function Values(s: seq<nat>): set<nat> {
    if s == [] then {} else Values(s[..|s| - 1]) + {s[|s| - 1]}
  }

  ghost function Upto(m: nat): set<nat> { if m == 0 then {} else Upto(m - 1) + {m - 1} }

  lemma {:induction false} Below(m: nat)
    ensures |Upto(m)| == m && forall v: nat :: v in Upto(m) <==> v < m
  {
    if m > 0 { Below(m - 1); }
  }

  lemma {:induction false} ValuesAre(s: seq<nat>)
    ensures forall v :: v in Values(s) <==> v in s
  {
    if s != [] {
      var n := |s| - 1;
      ValuesAre(s[..n]);
      assert s == s[..n] + [s[n]];
    }
  }

  lemma {:induction false} Different(s: seq<nat>)
    requires forall i, j :: 0 <= i < j < |s| ==> s[i] != s[j]
    ensures |Values(s)| == |s|
  {
    if s != [] {
      Different(s[..|s| - 1]);
      ValuesAre(s[..|s| - 1]);
    }
  }

  lemma {:induction false} Subset(a: set<nat>, b: set<nat>)
    requires a <= b
    ensures |a| <= |b|
  {
    if a != {} {
      var x :| x in a;
      Subset(a - {x}, b - {x});
    }
  }
}
