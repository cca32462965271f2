/** Pools of src/nc_palloc.c that are reset again and again: what fits into the blocks that are
    there takes no new one. */
module NcPoolRounds {
  import opened Words
  import opened PoolMath
  import opened NcPool
  import opened NcPoolRuns

  // ---- how much requests use up

  /** The bytes of a block that are in use, not counting the header of a pool. */
  ghost function Used(s: Spot): int { s.last - (s.addr + POOL_HEADER) }

  ghost function AllUsed(ss: seq<Spot>): int {
    if ss == [] then 0 else Used(ss[0]) + AllUsed(ss[1..])
  }

  /** What a small request uses up at most: aligning may skip seven bytes. */
  ghost function Cost(q: Request): nat { q.size + if q.align then ALIGNMENT - 1 else 0 }

  ghost function Costs(rs: seq<Request>): nat {
    if rs == [] then 0 else Costs(rs[..|rs| - 1]) + Cost(rs[|rs| - 1])
  }

  lemma CostsNext(rs: seq<Request>, i: nat)
    requires i < |rs|
    ensures Costs(rs[..i + 1]) == Costs(rs[..i]) + Cost(rs[i])
  {
    assert rs[..i + 1][..i] == rs[..i];
  }

  lemma PlaceCost(s: Spot, q: Request, m: nat)
    requires FirstPlace(s, q.size, q.align, m)
    ensures s.last <= m && m + q.size <= s.last + Cost(q)
  {
    if !q.align {
      assert Suits(s, q.size, q.align, s.last);
    } else if m >= s.last + ALIGNMENT {
      var n := m - ALIGNMENT;
      ModUnique(n, ALIGNMENT, m / ALIGNMENT - 1, 0);
      assert Suits(s, q.size, q.align, n);
    }
  }

  /** Where a request has no place, less is left than it may cost. */
  lemma TightCost(s: Spot, q: Request)
    requires Tight(s, q.size, q.align)
    ensures s.last + Cost(q) > s.end
  {
    var m := if q.align then (s.last + 7) / 8 * 8 else s.last;
    assert !Suits(s, q.size, q.align, m);
  }

  lemma {:induction false} UsedAt(ss: seq<Spot>, k: nat, m: nat)
    requires k < |ss|
    ensures AllUsed(ss[k := ss[k].(last := m)]) == AllUsed(ss) + m - ss[k].last
  {
    var now := ss[k := ss[k].(last := m)];
    if k == 0 {
      assert now[1..] == ss[1..];
    } else {
      UsedAt(ss[1..], k - 1, m);
      assert now[1..] == ss[1..][k - 1 := ss[k].(last := m)];
    }
  }

  ghost predicate Ends(ss: seq<Spot>, psize: nat) {
    forall k :: 0 <= k < |ss| ==> ss[k].end == ss[k].addr + psize
  }

  lemma {:induction false} TightUsed(ss: seq<Spot>, psize: nat, q: Request)
    requires Ends(ss, psize) && forall k :: 0 <= k < |ss| ==> Tight(ss[k], q.size, q.align)
    ensures AllUsed(ss) >= |ss| * (psize - POOL_HEADER - Cost(q) + 1)
  {
    if ss != [] {
      var c := psize - POOL_HEADER - Cost(q) + 1;
      TightCost(ss[0], q);
      TightUsed(ss[1..], psize, q);
      assert |ss| * c == c + |ss[1..]| * c;
    }
  }

  lemma {:induction false} EmptyUsed(ss: seq<Spot>)
    requires forall k :: 0 <= k < |ss| ==> ss[k].last == ss[k].addr + POOL_HEADER
    ensures AllUsed(ss) == 0
  {
    if ss != [] { EmptyUsed(ss[1..]); }
  }

  // ---- runs that start with empty blocks

  /** The requests are small, and whatever is left in n blocks of that size when those before
      request i have cost all they may, there is a place for it in one of them. */
  ghost predicate Snug(n: nat, psize: nat, max: nat, rs: seq<Request>) {
    forall i :: 0 <= i < |rs| ==>
      rs[i].size <= max && Costs(rs[..i]) < n * (psize - POOL_HEADER - Cost(rs[i]) + 1)
  }

  /** A pool of as many blocks as at the last reset. */
  ghost predicate AsReset(m: Moment, base: nat, psize: nat) {
    |m.spots| == base > 0 && m.here == 0 && Ends(m.spots, psize)
  }

  lemma SnugStep(psize: nat, max: nat, base: nat, was: Moment, q: Request, at: nat, p: nat, took: bool, now: Moment)
    requires Answers(psize, max, base, was, q, at, p, took, now) && AsReset(was, base, psize)
    requires q.size <= max && AllUsed(was.spots) < base * (psize - POOL_HEADER - Cost(q) + 1)
    ensures !took && AsReset(now, base, psize) && AllUsed(now.spots) <= AllUsed(was.spots) + Cost(q)
  {
    hide Carves, AllUsed, Cost, Ends, Tight;
    PlaceThere(was.spots, psize, q);
    SnugCarve(was.spots, now.spots, psize, q, at, p, took);
  }

  lemma SnugCarve(was: seq<Spot>, now: seq<Spot>, psize: nat, q: Request, at: nat, p: nat, took: bool)
    requires Carves(was, 0, now, psize, q.size, q.align, at, p, took) && Ends(was, psize)
    requires exists k :: 0 <= k < |was| && !Tight(was[k], q.size, q.align)
    ensures !took && |now| == |was| && Ends(now, psize) && AllUsed(now) <= AllUsed(was) + Cost(q)
  {
    hide AllUsed, Cost, Ends, Carves;
    var k := PlaceOf(was, now, psize, q, at, p, took);
    PlaceCost(was[k], q, p);
    UsedAt(was, k, p + q.size);
    EndsAt(was, psize, k, p + q.size);
  }

  lemma PlaceOf(was: seq<Spot>, now: seq<Spot>, psize: nat, q: Request, at: nat, p: nat, took: bool) returns (k: nat)
    requires Carves(was, 0, now, psize, q.size, q.align, at, p, took)
    requires exists k :: 0 <= k < |was| && !Tight(was[k], q.size, q.align)
    ensures !took && k < |was| && FirstPlace(was[k], q.size, q.align, p)
    ensures now == was[k := was[k].(last := p + q.size)]
  {
    hide Tight, FirstPlace;
    k :| 0 <= k < |was| && FirstPlace(was[k], q.size, q.align, p) && now == was[k := was[k].(last := p + q.size)];
  }

  lemma EndsAt(ss: seq<Spot>, psize: nat, k: nat, m: nat)
    requires Ends(ss, psize) && k < |ss|
    ensures Ends(ss[k := ss[k].(last := m)], psize)
  {}

  lemma PlaceThere(ss: seq<Spot>, psize: nat, q: Request)
    requires Ends(ss, psize) && AllUsed(ss) < |ss| * (psize - POOL_HEADER - Cost(q) + 1)
    ensures exists k :: 0 <= k < |ss| && !Tight(ss[k], q.size, q.align)
  {
    hide AllUsed, Cost, Tight;
    if forall k :: 0 <= k < |ss| ==> Tight(ss[k], q.size, q.align) { TightUsed(ss, psize, q); }
  }

  lemma {:induction false} SnugRun(psize: nat, max: nat, base: nat, rs: seq<Request>, ps: seq<nat>, log: seq<Moment>,
                                   us: seq<nat>, i: nat)
    requires Logged(psize, max, base, rs, [], ps, log, us) && Snug(base, psize, max, rs) && i <= |ps|
    requires AsReset(log[0], base, psize) && AllUsed(log[0].spots) == 0
    ensures us[i] == 0 && AsReset(log[i], base, psize) && AllUsed(log[i].spots) <= Costs(rs[..i])
    ensures 0 !in ps[..i]
  {
    hide Answers, Needs, AsReset, AllUsed, Cost, Costs;
    if i == 0 {
      assert Costs(rs[..0]) >= 0;
    } else {
      var j := i - 1;
      SnugRun(psize, max, base, rs, ps, log, us, j);
      assert Answers(psize, max, base, log[j], rs[j], Next([], us[j]), ps[j], us[j] < us[j + 1], log[j + 1]);
      SnugStep(psize, max, base, log[j], rs[j], Next([], us[j]), ps[j], us[j] < us[j + 1], log[j + 1]);
      CostsNext(rs, j);
      NotNull(max, log[j], rs[j], ps[j], us[j] < us[j + 1]) by {
        assert Needs(max, log[j], rs[j], Next([], us[j]), ps[j], us[j] < us[j + 1]);
      }
      assert ps[..i] == ps[..j] + [ps[j]];
    }
  }

  lemma NotNull(max: nat, was: Moment, q: Request, p: nat, took: bool)
    requires Needs(max, was, q, 0, p, took) && !took && q.size <= max
    ensures p != 0
  {}

  /** A pool right after a reset. */
  lemma AfterReset(pool: Pool)
    requires pool.Valid() && pool.base == |pool.blocks|
    requires forall i :: 0 <= i < |pool.blocks| ==> pool.blocks[i].last == pool.blocks[i].addr + POOL_HEADER
    ensures AsReset(Now(pool), pool.base, pool.Size()) && AllUsed(Spots(pool.blocks)) == 0
  {
    pool.HereIs();
    EmptyUsed(Spots(pool.blocks));
    assert forall i :: 0 <= i < |pool.blocks| ==> LaidOut(pool.blocks[i], pool.Size());
    hide Chain, Carved, Counts, CurrentAt, Pool.Here, AllUsed;
  }

  lemma NoLarge(pool: Pool, rs: seq<Request>)
    requires forall q <- rs :: q.size <= pool.max
    ensures Supplied(Extents(pool.slots), pool.blocks, pool.Size(), pool.max, rs, 0, [], 0)
  {}

  lemma SnugSmall(n: nat, psize: nat, max: nat, rs: seq<Request>)
    requires Snug(n, psize, max, rs)
    ensures forall q <- rs :: q.size <= max
  {}

  /** What small requests get when nobody gets NULL. */
  ghost predicate Fulfilled(rs: seq<Request>, ps: seq<nat>) {
    && |ps| == |rs| && 0 !in ps
    && (forall i :: 0 <= i < |rs| && rs[i].align ==> ps[i] % ALIGNMENT == 0)
    && forall i, j :: 0 <= i < j < |rs| ==> Away(Extent(ps[i], rs[i].size), Extent(ps[j], rs[j].size))
  }

  /** A reset, then a run without any new memory. */
  method Round(pool: Pool, rs: seq<Request>) returns (ps: seq<nat>)
    requires pool.Valid() && pool.WordSized() && Snug(|pool.blocks|, pool.Size(), pool.max, rs)
    modifies pool`current, pool`blocks, pool`given, pool`large, pool`slots, pool`records, pool`freed, pool`base
    modifies pool.blocks`last, pool.blocks`failed, pool.blocks`next, pool.slots`alloc, pool.slots`size
    ensures pool.Valid() && pool.blocks == old(pool.blocks) && Fulfilled(rs, ps)
    ensures forall j :: 0 <= j < |pool.slots| ==> pool.slots[j] in old(pool.slots) || fresh(pool.slots[j])
  {
    hide Pool.Shape, Listed, Separate, Recorded, Snug, Logged, Supplied, Spots, Extents, Pool.Here, Away, AllUsed;
    hide FirstPlace, AsReset, NoPlace, Now, Apart, Next, Tight;
    SnugSmall(|pool.blocks|, pool.Size(), pool.max, rs);
    pool.Reset();
    AfterReset(pool);
    NoLarge(pool, rs);
    ghost var log, us;
    ps, log, us := ServeAll(pool, rs, []);
    SnugRun(pool.Size(), pool.max, pool.base, rs, ps, log, us, |rs|);
    assert ps[..|rs|] == ps;
  }

  /** Any number of such rounds. No round asks for a new block, and every request gets memory. */
  method ServeRounds(pool: Pool, rounds: seq<seq<Request>>) returns (pss: seq<seq<nat>>)
    requires pool.Valid() && pool.WordSized()
    requires forall i :: 0 <= i < |rounds| ==> Snug(|pool.blocks|, pool.Size(), pool.max, rounds[i])
    modifies pool`current, pool`blocks, pool`given, pool`large, pool`slots, pool`records, pool`freed, pool`base
    modifies pool.blocks`last, pool.blocks`failed, pool.blocks`next, pool.slots`alloc, pool.slots`size
    ensures pool.Valid() && pool.blocks == old(pool.blocks)
    ensures |pss| == |rounds| && forall i :: 0 <= i < |rounds| ==> Fulfilled(rounds[i], pss[i])
  {
    hide Pool.Shape, Listed, Separate, Recorded, Snug, Fulfilled, Extents;
    pss := [];
    for i := 0 to |rounds|
      invariant pool.Valid() && pool.blocks == old(pool.blocks) && |pss| == i
      invariant forall j :: 0 <= j < i ==> Fulfilled(rounds[j], pss[j])
      invariant forall j :: 0 <= j < |pool.slots| ==> pool.slots[j] in old(pool.slots) || fresh(pool.slots[j])
    {
      var ps := Round(pool, rounds[i]);
      pss := pss + [ps];
    }
  }

  // ---- one request

  lemma FirstOfEmpty(s: Spot, left: nat, size: nat, align: bool)
    requires FirstPlace(s, left, true, s.last) && size <= left
    ensures FirstPlace(s, size, align, s.last)
  {
    assert Suits(s, left, true, s.last);
    assert Suits(s, size, align, s.last);
  }

  /** A small request that has its first place at the front of what is left of the first block. */
  method FirstTaken(pool: Pool, size: nat, align: bool, at: nat) returns (p: nat, took: bool)
    requires pool.Valid() && size <= pool.max && (align ==> pool.WordSized()) && pool.Unused(at, size, 0)
    requires pool.blocks != [] && pool.Here() == 0
    requires FirstPlace(Spots(pool.blocks)[0], size, align, pool.blocks[0].last)
    modifies pool`current, pool`blocks, pool`given, pool`large, pool`slots, pool`records, pool`freed
    modifies pool.blocks`last, pool.blocks`failed, pool.blocks`next, pool.slots`alloc, pool.slots`size
    ensures pool.Valid() && !took && p == old(pool.blocks[0].last) && pool.blocks == old(pool.blocks)
  {
    hide Pool.Shape, Listed, Separate, Recorded, Extents, Spots, Pool.Here, FirstPlace, Carves, Tight, Pool.Unused;
    hide Pool.Grown, LargeDone;
    ghost var was := Spots(pool.blocks);
    ghost var rec, seen;
    p, took, rec, seen := pool.Alloc(size, align, at, 0);
    PlaceInFirst(was, Spots(pool.blocks), pool.Size(), size, align, at, p, took);
  }

  /** After a reset, the first small request gets the memory right behind the header of the pool,
      whatever memory there is for new blocks. */
  method AgainFromStart(pool: Pool, size: nat, align: bool, at: nat) returns (p: nat, took: bool)
    requires pool.Valid() && size <= pool.max && (align ==> pool.WordSized()) && (at == 0 || pool.Free(at))
    modifies pool`current, pool`blocks, pool`given, pool`large, pool`slots, pool`records, pool`freed, pool`base
    modifies pool.blocks`last, pool.blocks`failed, pool.blocks`next, pool.slots`alloc, pool.slots`size
    ensures pool.Valid() && !took && p == pool.d.addr + 64 && pool.blocks == old(pool.blocks)
  {
    hide Pool.Shape, Listed, Separate, Recorded, Extents, Spots, Pool.Here, FirstPlace, Pool.Unused, Pool.Free;
    pool.Reset();
    Ready(pool, size, align, at);
    p, took := FirstTaken(pool, size, align, at);
  }

  /** What Reset leaves is what FirstTaken is about. */
  lemma Ready(pool: Pool, size: nat, align: bool, at: nat)
    requires pool.Valid() && pool.slots == [] && pool.base == |pool.blocks| && size <= pool.max
    requires (at == 0 || pool.Free(at)) && pool.blocks[0].last == pool.blocks[0].addr + POOL_HEADER
    requires FirstPlace(Spots(pool.blocks)[0], pool.Size() - POOL_HEADER, true, pool.blocks[0].addr + POOL_HEADER)
    ensures pool.Here() == 0 && pool.Unused(at, size, 0)
    ensures FirstPlace(Spots(pool.blocks)[0], size, align, pool.blocks[0].last)
  {
    hide Chain, Layout, Carved, Counts, FirstPlace, Pool.Here;
    pool.HereIs();
    FirstOfEmpty(Spots(pool.blocks)[0], pool.Size() - POOL_HEADER, size, align);
  }

  lemma PlaceInFirst(was: seq<Spot>, now: seq<Spot>, psize: nat, size: nat, align: bool, at: nat, p: nat, took: bool)
    requires Carves(was, 0, now, psize, size, align, at, p, took)
    requires was != [] && FirstPlace(was[0], size, align, was[0].last)
    ensures !took && p == was[0].last
  {
    FirstIsPlace(was[0], size, align, was[0].last);
    hide Tight;
    assert Suits(was[0], size, align, was[0].last) && Suits(was[0], size, align, p);
  }
}
