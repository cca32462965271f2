/** The shuffling of tests in tests/greatest.h: GREATEST_SHUFFLE and its generator. */
module Shuffle {
  import opened Lcg
  import opened Words

  // ---- wrap-around does not show below the modulus

  lemma Powers()
    ensures Pow2(63) == 0x8000_0000_0000_0000 && Pow2(29) == 0x2000_0000
  {
    WordIsPow();
    PowNext(63);
    PowNext(31);
    PowNext(30);
    PowNext(29);
    hide Pow2;
  }

  lemma PowNext(k: nat)
    ensures Pow2(k + 1) == 2 * Pow2(k)
  {}

  /** What is left of x modulo m stays the same when x is first reduced by a multiple of m. */
  lemma WrapRem(x: nat, W: nat, m: nat, w: nat)
    requires m > 0 && W > 0 && W == m * w
    ensures Rem(Rem(x, W), m) == Rem(x, m)
  {
    hide Rem;
    var q := RemSplit(x, W);
    Assoc(m, w, q);
    RemPlus(Rem(x, W), m, w * q);
  }

  lemma WrapThenMod(x: nat, k: nat)
    requires k <= 64
    ensures Rem(x % WORD, Pow2(k)) == Rem(x, Pow2(k))
  {
    WordIsPow();
    PowSum(k, 64 - k);
    WrapRem(x, WORD, Pow2(k), Pow2(64 - k));
  }

  /** One round of the generator in machine arithmetic is one round modulo m. */
  lemma StepIsMod(a: nat, c: nat, x: nat, k: nat)
    requires k <= 64
    ensures BitAnd((a * x % WORD + c) % WORD, Pow2(k) - 1) == Rem(a * x + c, Pow2(k))
  {
    hide Rem, BitAnd, Pow2;
    var p := a * x;
    MaskIsMod((p % WORD + c) % WORD, k);
    WrapThenMod(p % WORD + c, k);
    WrapThenMod(p, k);
    AddRem(p, c, Pow2(k));
    AddRem(p % WORD, c, Pow2(k));
  }

  lemma AddRem(x: nat, c: nat, m: nat)
    requires m > 0
    ensures Rem(x + c, m) == Rem(Rem(x, m) + c, m)
  {
    hide Rem;
    var q := RemSplit(x, m);
    RemPlus(Rem(x, m) + c, m, q);
  }

  lemma MulRem(a: nat, x: nat, m: nat)
    requires m > 0
    ensures Rem(a * x, m) == Rem(a * Rem(x, m), m)
  {
    hide Rem;
    var q := RemSplit(x, m);
    MulSplit(a, m, q, Rem(x, m));
    RemPlus(a * Rem(x, m), m, a * q);
  }

  lemma MulSplit(a: nat, m: nat, q: nat, r: nat)
    ensures a * (r + m * q) == a * r + m * (a * q)
  {
    Dist(a, r, m * q);
    Assoc(a, m, q);
    Assoc(m, a, q);
  }

  lemma SameAfter(a: nat, c: nat, m: nat, y: nat)
    requires m > 0
    ensures Rem(a * y + c, m) == Rem(a * Rem(y, m) + c, m)
  {
    hide Rem;
    MulRem(a, y, m);
    AddRem(a * y, c, m);
    AddRem(a * Rem(y, m), c, m);
  }

  lemma NextResidue(a: nat, c: nat, k: nat, x: nat, t: nat, y: nat)
    requires Rem(y, Pow2(k)) == Residue(a, c, k, x, t)
    ensures Rem(a * y + c, Pow2(k)) == Residue(a, c, k, x, t + 1)
  {
    hide Rem, Pow2;
    SameAfter(a, c, Pow2(k), y);
    SameAfter(a, c, Pow2(k), Iter(a, c, t, x));
  }

  lemma RemTwice(x: nat, m: nat)
    requires m > 0
    ensures Rem(Rem(x, m), m) == Rem(x, m)
  {
    RemIs(Rem(x, m), m, 0, Rem(x, m));
    hide Rem;
  }

  lemma OneStep(a: nat, c: nat, k: nat, x: nat, t: nat, y: nat)
    requires k <= 64 && Rem(y, Pow2(k)) == Residue(a, c, k, x, t)
    ensures var z := BitAnd((a * y % WORD + c) % WORD, Pow2(k) - 1);
            z == Residue(a, c, k, x, t + 1) && z < Pow2(k) && Rem(z, Pow2(k)) == z
  {
    StepIsMod(a, c, y, k);
    NextResidue(a, c, k, x, t, y);
    RemTwice(a * y + c, Pow2(k));
    hide *;
  }

  lemma NoStep(a: nat, c: nat, k: nat, x: nat)
    ensures Residue(a, c, k, x, 0) == Rem(x, Pow2(k))
  {}

  /** Doubling does not wrap around on the way to 2^63. */
  lemma NextPower(m: nat, k: nat, count: nat)
    requires m == Pow2(k) < count <= 0x8000_0000_0000_0000 && k <= 63
    ensures k < 63 && 2 * m % WORD == 2 * m == Pow2(k + 1)
  {
    hide Pow2;
    Powers();
    PowNext(k);
  }

  lemma AResidueLeft(a: nat, c: nat, k: nat, x: nat, n: nat, t: nat, ran: seq<nat>)
    requires a % 4 == 1 && c % 2 == 1 && n <= Pow2(k) && |ran| < n
    requires forall i :: 1 <= i <= t && Residue(a, c, k, x, i) < n ==> Residue(a, c, k, x, i) in ran
    ensures SomeAhead(a, c, k, x, n, t, Pow2(k))
  {
    hide Residue, Pow2;
    var v := Missing(ran, n);
    FullPeriod(a, c, k, x);
    assert Visited(a, c, k, x, v);
    var i :| 1 <= i <= Pow2(k) && Residue(a, c, k, x, i) == v;
    assert i > t;
  }

  /** A number below n that a shorter list leaves out. */
  lemma Missing(s: seq<nat>, n: nat) returns (v: nat)
    requires |s| < n
    ensures v < n && v !in s
  {
    if forall w: nat :: w < n ==> w in s {
      forall w | w in Upto(n) ensures w in Values(s) { Below(n); ValuesAre(s); }
      Subset(Upto(n), Values(s));
      Below(n);
      AtMost(s);
      assert false;
    }
    v :| v < n && v !in s;
  }

  lemma {:induction false} AtMost(s: seq<nat>)
    ensures |Values(s)| <= |s|
  {
    if s != [] { AtMost(s[..|s| - 1]); }
  }

  /** From step t up to step last the generator hits a number below n. */
  ghost predicate SomeAhead(a: nat, c: nat, k: nat, x: nat, n: nat, t: nat, last: nat) {
    exists i :: t < i <= last && Residue(a, c, k, x, i) < n
  }

  /** Wherever the generator is, it hits a number below n within one period. */
  lemma WithinPeriod(a: nat, c: nat, k: nat, x: nat, n: nat, t: nat)
    requires a % 4 == 1 && c % 2 == 1 && 0 < n
    ensures SomeAhead(a, c, k, x, n, t, t + Pow2(k))
  {
    hide Rem, Iter, Pow2;
    var y := Iter(a, c, t, x);
    FullPeriod(a, c, k, y);
    assert Visited(a, c, k, y, 0);
    var i :| 1 <= i <= Pow2(k) && Residue(a, c, k, y, i) == 0;
    IterSum(a, c, i, t, x);
    assert Residue(a, c, k, x, i + t) == 0;
  }

  // ---- the order of the tests

  /** The state after t steps from x. */
  ghost function StateAt(a: nat, c: nat, m: nat, x: nat, t: nat): nat
    requires m > 0
  {
    if t == 0 then x else (a * StateAt(a, c, m, x, t - 1) + c) % m
  }

  /** The states of steps 1 to t that are numbers of tests, in that order. */
  ghost function Visits(a: nat, c: nat, m: nat, x: nat, n: nat, t: nat): seq<nat>
    requires m > 0
  {
    if t == 0 then []
    else
      var y := StateAt(a, c, m, x, t);
      Visits(a, c, m, x, n, t - 1) + if y < n then [y] else []
  }

  lemma {:induction false} StateIs(a: nat, c: nat, k: nat, x: nat, t: nat)
    ensures Rem(StateAt(a, c, Pow2(k), x, t), Pow2(k)) == Residue(a, c, k, x, t)
    ensures t > 0 ==> StateAt(a, c, Pow2(k), x, t) == Residue(a, c, k, x, t)
  {
    hide Rem, Residue, Pow2, StateAt;
    StateNext(a, c, Pow2(k), x, t);
    if t == 0 {
      NoStep(a, c, k, x);
    } else {
      var y := StateAt(a, c, Pow2(k), x, t - 1);
      StateIs(a, c, k, x, t - 1);
      NextResidue(a, c, k, x, t - 1, y);
      RemTwice(a * y + c, Pow2(k));
    }
  }

  lemma StateNext(a: nat, c: nat, m: nat, x: nat, t: nat)
    requires m > 0
    ensures StateAt(a, c, m, x, t) == if t == 0 then x else Rem(a * StateAt(a, c, m, x, t - 1) + c, m)
  {}

  /** Steps that are no numbers of tests add nothing. */
  lemma {:induction false} VisitsSkip(a: nat, c: nat, k: nat, x: nat, n: nat, t: nat, t': nat)
    requires t <= t' && forall i :: t < i <= t' ==> Residue(a, c, k, x, i) >= n
    ensures Visits(a, c, Pow2(k), x, n, t') == Visits(a, c, Pow2(k), x, n, t)
  {
    hide Residue, StateAt, Pow2;
    if t < t' {
      VisitsSkip(a, c, k, x, n, t, t' - 1);
      StateIs(a, c, k, x, t');
    }
  }

  lemma VisitsNext(a: nat, c: nat, k: nat, x: nat, n: nat, t: nat, t': nat)
    requires t < t' && forall i :: t < i < t' ==> Residue(a, c, k, x, i) >= n
    requires Residue(a, c, k, x, t') < n
    ensures Visits(a, c, Pow2(k), x, n, t') == Visits(a, c, Pow2(k), x, n, t) + [Residue(a, c, k, x, t')]
  {
    hide Residue, StateAt, Pow2;
    VisitsSkip(a, c, k, x, n, t, t' - 1);
    StateIs(a, c, k, x, t');
  }

  /** Once every test has been visited, none is for the rest of the period. */
  lemma VisitsEnd(a: nat, c: nat, k: nat, x: nat, n: nat, t: nat, ran: seq<nat>)
    requires a % 4 == 1 && c % 2 == 1 && Progress(a, c, k, x, t, n, ran) && |ran| == n
    ensures Visits(a, c, Pow2(k), x, n, Pow2(k)) == Visits(a, c, Pow2(k), x, n, t)
  {
    hide Residue, Pow2, Visits;
    FullPeriod(a, c, k, x);
    AllRan(ran, n);
    forall i | t < i <= Pow2(k) ensures Residue(a, c, k, x, i) >= n {
      var v := Residue(a, c, k, x, i);
      forall u <- ran ensures u != v {
        var j :| 1 <= j <= t && Residue(a, c, k, x, j) == u;
      }
      assert v !in ran;
    }
    VisitsSkip(a, c, k, x, n, t, Pow2(k));
  }

  /** For example, four tests and the seed 42. */
  lemma FourTests()
    ensures Visits(169, 2147483647, 4, 42, 4, 4) == [1, 0, 3, 2]
  {
    assert StateAt(169, 2147483647, 4, 42, 1) == 1;
    assert StateAt(169, 2147483647, 4, 42, 2) == 0;
    assert StateAt(169, 2147483647, 4, 42, 3) == 3;
    assert StateAt(169, 2147483647, 4, 42, 4) == 2;
    assert Visits(169, 2147483647, 4, 42, 4, 2) == [1, 0];
  }

  class Prng {
    var randomOrder: bool
    var initialized: bool
    var state: nat
    var count: nat  // tests met in this pass
    var countCeil: nat  // tests met in the first pass
    var countRun: nat  // tests that have run
    var a: nat
    var c: nat
    var m: nat
    // m is 2^k; t steps have been made from the state start
    ghost var k: nat
    ghost var start: nat
    ghost var t: nat

    constructor ()
      ensures !initialized && !randomOrder
    {
      randomOrder, initialized := false, false;
      state, count, countCeil, countRun, a, c, m := 0, 0, 0, 0, 0, 0, 0;
    }

    ghost predicate Seeded()
      reads this
    {
      && initialized && k <= 64 && m == Pow2(k)
      && a % 4 == 1 && c % 2 == 1 && 0 < countCeil <= m
      && Rem(state, m) == Residue(a, c, k, start, t)
    }

    method InitFirstPass()
      modifies `randomOrder, `countRun
      ensures randomOrder && countRun == 0
    {
      randomOrder := true;
      countRun := 0;
    }

    method InitSecondPass(seed: nat) returns (ok: bool)
      requires count <= 0x8000_0000_0000_0000
      modifies this
      ensures ok <==> old(count) != 0
      ensures ok ==> Seeded() && t == 0 && countCeil == old(count) && (k > 0 ==> Pow2(k - 1) < countCeil)
      ensures ok ==> start == state == seed % 0x2000_0000 && c == 2147483647
      ensures ok ==> a == if state == 0 then 5 else 4 * state + 1
      ensures count == old(count) && countRun == old(countRun) && randomOrder == old(randomOrder)
      ensures !ok ==> initialized == old(initialized)
    {
      if count == 0 {
        return false;
      }
      hide Rem, BitAnd, BitOr, Pow2, Residue;
      countCeil := count;
      m, k := LeastPower(count);
      Multiplier(seed);
      state := BitAnd(seed, 0x1fff_ffff);
      a := 4 * state % WORD;
      a := BitOr(if a != 0 then a else 4, 1);
      c := 2147483647;
      initialized := true;
      start, t := state, 0;
      NoStep(a, c, k, start);
      ok := true;
    }

    static method LeastPower(count: nat) returns (m: nat, ghost k: nat)
      requires 0 < count <= 0x8000_0000_0000_0000
      ensures m == Pow2(k) && k <= 63 && count <= m && (k > 0 ==> Pow2(k - 1) < count)
    {
      m := 1;
      k := 0;
      assert Pow2(0) == 1;
      hide Pow2;
      while m < count
        invariant m == Pow2(k) && k <= 63 && (k > 0 ==> Pow2(k - 1) < count)
        decreases 64 - k
      {
        NextPower(m, k, count);
        m := 2 * m % WORD;
        k := k + 1;
      }
    }

    static lemma Multiplier(seed: nat)
      ensures var s := BitAnd(seed, 0x1fff_ffff);
              var a := BitOr(if 4 * s % WORD != 0 then 4 * s % WORD else 4, 1);
              s == seed % 0x2000_0000 && a % 4 == 1 && a == if s == 0 then 5 else 4 * s + 1
    {
      hide BitAnd, BitOr;
      Masked(seed);
      var s := BitAnd(seed, 0x1fff_ffff);
      Unwrapped(s);
      MadeOdd(4 * s % WORD);
    }

    static lemma Masked(seed: nat)
      ensures BitAnd(seed, 0x1fff_ffff) == seed % 0x2000_0000 < 0x2000_0000
    {
      hide BitAnd, Pow2;
      Powers();
      MaskIsMod(seed, 29);
    }

    static lemma Unwrapped(s: nat)
      requires s < 0x2000_0000
      ensures 4 * s % WORD == 4 * s && 4 * s % WORD % 4 == 0
    {}

    static lemma MadeOdd(u: nat)
      requires u % 4 == 0
      ensures var a := BitOr(if u != 0 then u else 4, 1); a % 4 == 1 && a == if u == 0 then 5 else u + 1
    {
      hide BitOr;
      var x := if u != 0 then u else 4;
      Quartered(x);
      SetLowest(x);
    }

    static lemma Quartered(x: nat)
      requires x % 4 == 0
      ensures x % 2 == 0 && (x + 1) % 4 == 1
    {
      var q := x / 4;
      assert x == 4 * q;
      ModUnique(x, 2, 2 * q, 0);
      ModUnique(x + 1, 4, q, 1);
    }

    method Step()
      requires Seeded()
      modifies `state, `t
      ensures Seeded() && old(t) < t <= old(t) + Pow2(k) && state == Residue(a, c, k, start, t) < countCeil
      ensures forall i :: old(t) < i < t ==> Residue(a, c, k, start, i) >= countCeil
    {
      hide Pow2, Residue, Rem, BitAnd;
      WithinPeriod(a, c, k, start, countCeil, t);
      while true
        invariant Seeded() && old(t) <= t
        invariant forall i :: old(t) < i <= t ==> Residue(a, c, k, start, i) >= countCeil
        invariant SomeAhead(a, c, k, start, countCeil, t, old(t) + Pow2(k))
        decreases old(t) + Pow2(k) - t
      {
        OneStep(a, c, k, start, t, state);
        state := BitAnd((a * state % WORD + c) % WORD, m - 1);
        t := t + 1;
        if state < countCeil {
          break;
        }
      }
    }

    /** What greatest_test_pre and greatest_suite_pre ask the generator for each selected test
        of a pass: shall it run now? Always, unless the order is random. */
    method TestPre() returns (run: bool)
      modifies `count, `countRun
      ensures count == old(count) + if randomOrder then 1 else 0
      ensures run <==> !randomOrder || (initialized && old(count) == state)
      ensures countRun == old(countRun) + if run then 1 else 0
    {
      if randomOrder {
        count := count + 1;
        if !initialized || count - 1 != state {
          return false;
        }
      }
      countRun := countRun + 1;
      return true;
    }

    /** One pass over a body of n selected tests. */
    method Pass(n: nat) returns (ran: seq<nat>)
      requires randomOrder && count == 0
      modifies `count, `countRun
      ensures count == n && countRun == old(countRun) + |ran|
      ensures ran == if initialized && state < n then [state] else []
    {
      ran := [];
      for i := 0 to n
        invariant count == i && countRun == old(countRun) + |ran|
        invariant ran == if initialized && state < i then [state] else []
      {
        var run := TestPre();
        if run {
          ran := ran + [i];
        }
      }
    }

    /** What the second pass has chosen for the seed and the number of tests. */
    ghost predicate Drawn(seed: nat, n: nat)
      reads this`a, this`c, this`start, this`k
    {
      && start == seed % 0x2000_0000 && c == 2147483647 && a == (if start == 0 then 5 else 4 * start + 1)
      && n <= Pow2(k) && (k > 0 ==> Pow2(k - 1) < n)
    }

    /** GREATEST_SHUFFLE with a body of n selected tests that never aborts: the first pass
        counts them, every later one runs one. Seed and number of tests determine the order: it
        is that of the states below n over one period, modulo the least power of two m >= n. */
    method Shuffle(n: nat, seed: nat) returns (ran: seq<nat>, ghost bits: nat)
      requires !initialized && n <= 0x8000_0000_0000_0000
      modifies this
      ensures |ran| == n && Distinct(ran)
      ensures forall v: nat :: v in ran <==> v < n
      ensures n > 0 ==>
                && n <= Pow2(bits) && (bits > 0 ==> Pow2(bits - 1) < n)
                && var s := seed % 0x2000_0000;
                   ran == Visits(if s == 0 then 5 else 4 * s + 1, 2147483647, Pow2(bits), s, n, Pow2(bits))
      ensures !initialized && !randomOrder && countRun == 0
    {
      hide Residue, Pow2, Rem, Visits, SoFar, SomeAhead;
      ran, bits := [], 0;
      InitFirstPass();
      while true
        invariant randomOrder && countRun == |ran|
        invariant initialized ==> Seeded() && countCeil == n && SoFar(a, c, k, start, t, n, ran) && |ran| < n
        invariant !initialized ==> ran == []
        invariant initialized ==> n > 0 && Drawn(seed, n)
        decreases !initialized, n - |ran|
      {
        ghost var t0, ran0 := t, ran;
        count := 0;
        if initialized {
          SoFarAhead(a, c, k, start, n, t, ran);
          Step();
        }
        var now := Pass(n);
        ran := ran + now;
        if !initialized {
          var ok := InitSecondPass(seed);
          if !ok {
            break;
          }
          SoFarNone(a, c, k, start, n);
        } else {
          SoFarNext(a, c, k, start, t0, t, n, ran0);
          if countRun == countCeil {
            break;
          }
        }
      }
      if n > 0 {
        SoFarEnds(a, c, k, start, t, n, ran);
        bits := k;
      }
      countRun := 0;
      randomOrder := false;
      initialized := false;
    }
  }

  ghost predicate Distinct(s: seq<nat>) { forall i, j :: 0 <= i < j < |s| ==> s[i] != s[j] }

  ghost predicate HitBefore(a: nat, c: nat, k: nat, x: nat, t: nat, v: nat) {
    exists i :: 1 <= i <= t && Residue(a, c, k, x, i) == v
  }

  /** The tests that have run are those the generator has hit, each once. */
  ghost predicate Progress(a: nat, c: nat, k: nat, x: nat, t: nat, n: nat, ran: seq<nat>) {
    && t <= Pow2(k) && Distinct(ran)
    && (forall v <- ran :: v < n && HitBefore(a, c, k, x, t, v))
    && forall i :: 1 <= i <= t && Residue(a, c, k, x, i) < n ==> Residue(a, c, k, x, i) in ran
  }

  lemma NextHit(a: nat, c: nat, k: nat, x: nat, t: nat, t': nat, n: nat, ran: seq<nat>)
    requires a % 4 == 1 && c % 2 == 1 && Progress(a, c, k, x, t, n, ran)
    requires t < t' <= Pow2(k) && Residue(a, c, k, x, t') < n
    requires forall i :: t < i < t' ==> Residue(a, c, k, x, i) >= n
    ensures Progress(a, c, k, x, t', n, ran + [Residue(a, c, k, x, t')])
  {
    hide Residue, Pow2;
    var r := Residue(a, c, k, x, t');
    FullPeriod(a, c, k, x);
    assert HitBefore(a, c, k, x, t', r);
    forall v <- ran ensures v != r && HitBefore(a, c, k, x, t', v) {
      var i :| 1 <= i <= t && Residue(a, c, k, x, i) == v;
    }
  }

  ghost predicate SoFar(a: nat, c: nat, k: nat, x: nat, t: nat, n: nat, ran: seq<nat>) {
    Progress(a, c, k, x, t, n, ran) && ran == Visits(a, c, Pow2(k), x, n, t)
  }

  lemma SoFarNone(a: nat, c: nat, k: nat, x: nat, n: nat)
    ensures SoFar(a, c, k, x, 0, n, [])
  {
    hide Pow2;
  }

  lemma SoFarAhead(a: nat, c: nat, k: nat, x: nat, n: nat, t: nat, ran: seq<nat>)
    requires a % 4 == 1 && c % 2 == 1 && n <= Pow2(k) && SoFar(a, c, k, x, t, n, ran) && |ran| < n
    ensures exists i :: t < i <= Pow2(k) && Residue(a, c, k, x, i) < n
  {
    hide Residue, Pow2, Visits;
    AResidueLeft(a, c, k, x, n, t, ran);
  }

  lemma SoFarNext(a: nat, c: nat, k: nat, x: nat, t: nat, t': nat, n: nat, ran: seq<nat>)
    requires a % 4 == 1 && c % 2 == 1 && SoFar(a, c, k, x, t, n, ran)
    requires t < t' <= Pow2(k) && Residue(a, c, k, x, t') < n
    requires forall i :: t < i < t' ==> Residue(a, c, k, x, i) >= n
    ensures SoFar(a, c, k, x, t', n, ran + [Residue(a, c, k, x, t')])
  {
    hide Residue, Pow2, Visits, Progress;
    NextHit(a, c, k, x, t, t', n, ran);
    VisitsNext(a, c, k, x, n, t, t');
  }

  lemma SoFarEnds(a: nat, c: nat, k: nat, x: nat, t: nat, n: nat, ran: seq<nat>)
    requires a % 4 == 1 && c % 2 == 1 && SoFar(a, c, k, x, t, n, ran) && |ran| == n
    ensures Distinct(ran) && ran == Visits(a, c, Pow2(k), x, n, Pow2(k)) && forall v: nat :: v in ran <==> v < n
  {
    hide Residue, Pow2, Visits;
    VisitsEnd(a, c, k, x, n, t, ran);
    AllRan(ran, n);
  }

  lemma AllRan(ran: seq<nat>, n: nat)
    requires |ran| == n && Distinct(ran) && forall v <- ran :: v < n
    ensures forall v: nat :: v in ran <==> v < n
  {
    assert forall i :: 0 <= i < n ==> ran[i] in ran;
    forall v: nat | v < n ensures v in ran { Onto(ran, n, v); }
  }
}
