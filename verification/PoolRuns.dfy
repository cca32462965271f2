/** Runs of the pool of src/nc_palloc.c: what holds after any sequence of requests, and what
    goes wrong in a pool whose size is not a multiple of the word size. */
module NcPoolRuns {
  import opened Words
  import opened PoolMath
  import opened NcPool

  /** A call of nc_palloc (align) or nc_pnalloc (not). If it is large, nc_alloc returns mem. */
  datatype Request = Request(size: nat, align: bool, mem: nat)

  /** The memory that nc_alloc returns for q, if it is asked and does not return NULL. */
  ghost predicate Gets(q: Request, max: nat) { q.size > max && q.mem != 0 }

  ghost function Of(q: Request): Extent { Extent(q.mem, q.size) }

  /** What is still to come: nc_memalign returns the addresses ats from number u on, one for
      each block, and NULL after the last; the requests are those from number i on. The memory
      is memory that nobody holds. */
  ghost predicate Supplied(es: seq<Extent>, bs: seq<Block>, psize: nat, max: nat, rs: seq<Request>, i: nat,
                           ats: seq<nat>, u: nat)
  {
    && (forall a :: u <= a < |ats| ==> BlockFor(ats[a], es, bs, psize))
    && (forall a, b :: u <= a < b < |ats| && ats[a] != 0 && ats[b] != 0 ==>
          Away(Extent(ats[a], psize), Extent(ats[b], psize)))
    && (forall j :: i <= j < |rs| && Gets(rs[j], max) ==> Unheld(Of(rs[j]), es, bs))
    && (forall j, a :: i <= j < |rs| && Gets(rs[j], max) && u <= a < |ats| && ats[a] != 0 ==>
          Away(Extent(ats[a], psize), Of(rs[j])))
    && forall j, k :: i <= j < k < |rs| && Gets(rs[j], max) && Gets(rs[k], max) ==> Away(Of(rs[j]), Of(rs[k]))
  }

  ghost function Next(ats: seq<nat>, u: nat): nat { if u < |ats| then ats[u] else 0 }

  /** The pieces held afterwards are those held before, and perhaps that of q. */
  ghost predicate OnlyMore(es: seq<Extent>, now: seq<Extent>, q: Request, max: nat) {
    forall k :: 0 <= k < |now| && now[k].at != 0 ==> now[k] in es || (Gets(q, max) && now[k] == Of(q))
  }

  ghost predicate GrownBy(bs: seq<Block>, now: seq<Block>, at: nat, psize: nat) {
    now == bs ||
    (at != 0 && |now| == |bs| + 1 && now[..|bs|] == bs && now[|bs|].addr == at && now[|bs|].end == at + psize)
  }

  lemma UnheldStill(e: Extent, es: seq<Extent>, bs: seq<Block>, es': seq<Extent>, bs': seq<Block>, q: Request, max: nat,
                    at: nat, psize: nat)
    requires Unheld(e, es, bs) && OnlyMore(es, es', q, max) && GrownBy(bs, bs', at, psize)
    requires (Gets(q, max) ==> Away(e, Of(q))) && (bs' != bs ==> Away(e, Extent(at, psize)))
    ensures Unheld(e, es', bs')
  {
    forall k | 0 <= k < |es'| && es'[k].at != 0 ensures Away(e, es'[k]) {
      if es'[k] in es {
        var l :| 0 <= l < |es| && es[l] == es'[k];
      }
    }
    forall k | 0 <= k < |bs'| ensures Outside(e, bs'[k]) {
      if k < |bs| { assert bs'[k] == bs[k]; }
    }
  }

  /** One request served: what is still to come is still memory that nobody holds. */
  lemma SuppliedNext(es: seq<Extent>, bs: seq<Block>, psize: nat, max: nat, rs: seq<Request>, i: nat, ats: seq<nat>,
                     u: nat, es': seq<Extent>, bs': seq<Block>, u': nat)
    requires Supplied(es, bs, psize, max, rs, i, ats, u) && i < |rs| && u <= u' <= u + 1
    requires OnlyMore(es, es', rs[i], max) && GrownBy(bs, bs', Next(ats, u), psize) && (bs' == bs || u' == u + 1)
    ensures Supplied(es', bs', psize, max, rs, i + 1, ats, u')
  {
    var q, at := rs[i], Next(ats, u);
    hide GrownBy, OnlyMore, Unheld;
    forall a | u' <= a < |ats| ensures BlockFor(ats[a], es', bs', psize) {
      if ats[a] != 0 {
        var e := Extent(ats[a], psize);
        assert BlockFor(ats[a], es, bs, psize);
        assert bs' != bs ==> Away(e, Extent(at, psize)) by { NotGrownBy(bs, bs', at, psize); }
        UnheldStill(e, es, bs, es', bs', q, max, at, psize);
        FreeStill(ats[a], psize, es', bs, bs');
      }
    }
    forall j | i < j < |rs| && Gets(rs[j], max) ensures Unheld(Of(rs[j]), es', bs') {
      assert bs' != bs ==> Away(Of(rs[j]), Extent(at, psize)) by { NotGrownBy(bs, bs', at, psize); }
      UnheldStill(Of(rs[j]), es, bs, es', bs', q, max, at, psize);
    }
  }

  lemma NotGrownBy(bs: seq<Block>, bs': seq<Block>, at: nat, psize: nat)
    requires GrownBy(bs, bs', at, psize)
    ensures at == 0 ==> bs' == bs
  {}

  lemma FreeStill(at: nat, psize: nat, es: seq<Extent>, bs: seq<Block>, bs': seq<Block>)
    requires FreeFor(at, bs, psize) && Unheld(Extent(at, psize), es, bs')
    ensures BlockFor(at, es, bs', psize)
  {
    forall k | 0 <= k < |bs'| ensures Clear(at, at + psize, bs'[k]) {
      assert Outside(Extent(at, psize), bs'[k]);
    }
  }

  lemma UnusedNext(pool: Pool, rs: seq<Request>, i: nat, ats: seq<nat>, u: nat)
    requires Supplied(Extents(pool.slots), pool.blocks, pool.Size(), pool.max, rs, i, ats, u) && i < |rs|
    ensures pool.Unused(Next(ats, u), rs[i].size, rs[i].mem)
  {
    hide Unheld;
  }

  /** What request q got: NULL, or its own small piece of that size, not the record of a slot,
      or a large piece that a slot holds. */
  ghost predicate Served(max: nat, given: seq<Chunk>, records: seq<nat>, es: seq<Extent>, q: Request, p: nat,
      own: nat) {
    p == 0 ||
    if q.size <= max then
      && own < |given| && own !in records && given[own].at == p && given[own].size == q.size
      && (q.align ==> p % ALIGNMENT == 0)
    else p == q.mem && Of(q) in es
  }

  /** The requests served so far, each with a piece of its own. */
  ghost predicate AllServed(max: nat, given: seq<Chunk>, records: seq<nat>, es: seq<Extent>, rs: seq<Request>,
                            ps: seq<nat>, owns: seq<nat>)
  {
    && |ps| == |owns| <= |rs|
    && (forall i :: 0 <= i < |ps| ==> Served(max, given, records, es, rs[i], ps[i], owns[i]))
    && (forall i :: 0 <= i < |ps| ==> owns[i] <= |given|)
    && forall i, j :: 0 <= i < j < |ps| && IsSmall(rs[i], ps[i], max) && IsSmall(rs[j], ps[j], max) ==>
         owns[i] != owns[j]
  }

  ghost predicate IsSmall(q: Request, p: nat, max: nat) { q.size <= max && p != 0 }

  /** What was held is still held. */
  ghost predicate StillHeld(es: seq<Extent>, now: seq<Extent>) {
    forall k :: 0 <= k < |es| && es[k].at != 0 ==> es[k] in now
  }

  lemma OneMore(max: nat, given: seq<Chunk>, records: seq<nat>, es: seq<Extent>, now: seq<Chunk>, recs: seq<nat>,
                es': seq<Extent>, rs: seq<Request>, ps: seq<nat>, owns: seq<nat>, p: nat)
    requires AllServed(max, given, records, es, rs, ps, owns) && |ps| < |rs| && given <= now && StillHeld(es, es')
    requires Served(max, now, recs, es', rs[|ps|], p, |given|)
    requires forall r <- recs :: r in records || (r == |given| && rs[|ps|].size > max)
    ensures AllServed(max, now, recs, es', rs, ps + [p], owns + [|given|])
  {
    forall i | 0 <= i < |ps| ensures Served(max, now, recs, es', rs[i], ps[i], owns[i]) {
      assert Served(max, given, records, es, rs[i], ps[i], owns[i]);
    }
    forall i | 0 <= i < |ps| && IsSmall(rs[i], ps[i], max) ensures owns[i] != |given| {
      assert Served(max, given, records, es, rs[i], ps[i], owns[i]);
    }
  }

  lemma TakenLaws(was: seq<Spot>, es: seq<Extent>, cur: nat, now: seq<Spot>, es': seq<Extent>, psize: nat, q: Request,
                  max: nat, at: nat, p: nat, took: bool, rec: nat)
    requires LargeDone(was, es, cur, now, es', psize, q.size, at, q.mem, p, took, rec) && Gets(q, max)
    ensures OnlyMore(es, es', q, max) && StillHeld(es, es') && (p != 0 ==> p == q.mem && Of(q) in es')
    ensures took ==> FiveFull(es) && forall k :: cur <= k < |was| ==> Tight(was[k], RECORD, true)
    ensures !took ==> FiveFull(es) ==> exists k :: cur <= k < |was| && !Tight(was[k], RECORD, true)
    ensures took && at == 0 ==> p == 0
    ensures p == 0 && (forall k :: 0 <= k < |was| ==> was[k].last > 0) ==> took && at == 0
  {
    if FiveFull(es) {
      if rec != 0 {
        assert es' == [Of(q)] + es && es'[0] == Of(q);
        forall l | 0 <= l < |es| && es[l].at != 0 ensures es[l] in es' { assert es'[l + 1] == es[l]; }
      }
      RecordLaws(was, cur, now, psize, at, rec, took);
    } else {
      hide FiveFull;
      assert Of(q) == Extent(q.mem, q.size);
      var j :| 0 <= j < 5 && j < |es| && es[j].at == 0 && es' == es[j := Extent(q.mem, q.size)];
      assert es'[j] == Of(q);
      forall l | 0 <= l < |es| && es[l].at != 0 ensures es[l] in es' { assert es'[l] == es[l]; }
    }
  }

  /** When a record is carved, and when that fails. */
  lemma RecordLaws(was: seq<Spot>, cur: nat, now: seq<Spot>, psize: nat, at: nat, rec: nat, took: bool)
    requires Carves(was, cur, now, psize, RECORD, true, at, rec, took)
    ensures rec == 0 && (forall k :: 0 <= k < |was| ==> was[k].last > 0) ==> took && at == 0
    ensures took && at == 0 ==> rec == 0
  {
    hide Tight;
    if !took {
      var k :| cur <= k < |was| && FirstPlace(was[k], RECORD, true, rec);
      FirstIsPlace(was[k], RECORD, true, rec);
    }
  }

  lemma NothingTaken(es: seq<Extent>, q: Request, max: nat)
    ensures OnlyMore(es, es, q, max) && StillHeld(es, es)
  {}

  // ---- what a run does, request by request

  /** A pool as requests see it: its blocks, the number of the current one, and what the slots
      hold. */
  datatype Moment = Moment(spots: seq<Spot>, here: nat, es: seq<Extent>)

  ghost function Now(pool: Pool): (m: Moment)
    reads pool, pool.blocks, pool.slots
    ensures m == Moment(Spots(pool.blocks), pool.Here(), Extents(pool.slots))
  {
    Moment(Spots(pool.blocks), pool.Here(), Extents(pool.slots))
  }

  /** All blocks from the current one on are too full. */
  ghost predicate NoPlace(m: Moment, size: nat, align: bool) {
    forall k :: m.here <= k < |m.spots| ==> Tight(m.spots[k], size, align)
  }

  /** What q does and gets when a new block would come to be at address at: took says whether
      nc_memalign was asked for one. */
  ghost predicate Answers(psize: nat, max: nat, base: nat, was: Moment, q: Request, at: nat, p: nat, took: bool,
                          now: Moment)
  {
    && now.here == (if |now.spots| - base >= 6 then |now.spots| - 7 else 0)
    && if q.size <= max then
         now.es == was.es && Carves(was.spots, was.here, now.spots, psize, q.size, q.align, at, p, took)
       else if q.mem == 0 then
         p == 0 && !took && now.spots == was.spots && now.es == was.es
       else
         exists rec ::
           LargeDone(was.spots, was.es, was.here, now.spots, now.es, psize, q.size, at, q.mem, p, took, rec)
  }

  /** nc_memalign is asked if and only if nothing that is there will do, and NULL comes if and
      only if one of the allocators returned it. */
  ghost predicate Needs(max: nat, was: Moment, q: Request, at: nat, p: nat, took: bool) {
    && (took <==>
          if q.size <= max then NoPlace(was, q.size, q.align)
          else q.mem != 0 && FiveFull(was.es) && NoPlace(was, RECORD, true))
    && (p == 0 <==> (took && at == 0) || (q.size > max && q.mem == 0))
  }

  /** The log of a run: number i is the pool before request i, which gets ps[i]; by then
      nc_memalign had been asked us[i] times. */
  ghost predicate Logged(psize: nat, max: nat, base: nat, rs: seq<Request>, ats: seq<nat>, ps: seq<nat>,
                         log: seq<Moment>, us: seq<nat>)
  {
    && |log| == |us| == |ps| + 1 && |ps| <= |rs| && us[0] == 0
    && forall i :: 0 <= i < |ps| ==>
         us[i] <= us[i + 1] <= us[i] + 1
         && Answers(psize, max, base, log[i], rs[i], Next(ats, us[i]), ps[i], us[i] < us[i + 1], log[i + 1])
         && Needs(max, log[i], rs[i], Next(ats, us[i]), ps[i], us[i] < us[i + 1])
  }

  lemma LoggedMore(psize: nat, max: nat, base: nat, rs: seq<Request>, ats: seq<nat>, ps: seq<nat>, log: seq<Moment>,
                   us: seq<nat>, p: nat, u: nat, now: Moment)
    requires Logged(psize, max, base, rs, ats, ps, log, us) && |ps| < |rs|
    requires us[|ps|] <= u <= us[|ps|] + 1
    requires Answers(psize, max, base, log[|ps|], rs[|ps|], Next(ats, us[|ps|]), p, us[|ps|] < u, now)
    requires Needs(max, log[|ps|], rs[|ps|], Next(ats, us[|ps|]), p, us[|ps|] < u)
    ensures Logged(psize, max, base, rs, ats, ps + [p], log + [now], us + [u])
  {
    hide Answers, Needs, Next;
  }

  lemma Used(pool: Pool)
    requires pool.Valid()
    ensures forall k :: 0 <= k < |pool.blocks| ==> Spots(pool.blocks)[k].last > 0
  {
    assert forall k :: 0 <= k < |pool.blocks| ==> LaidOut(pool.blocks[k], pool.Size());
  }

  /** One of a row of requests. */
  method Serve(pool: Pool, rs: seq<Request>, i: nat, ats: seq<nat>, u: nat) returns (p: nat, u': nat, ghost own: nat)
    requires pool.Valid() && pool.WordSized() && i < |rs|
    requires Supplied(Extents(pool.slots), pool.blocks, pool.Size(), pool.max, rs, i, ats, u)
    modifies pool`current, pool`blocks, pool`given, pool`large, pool`slots, pool`records, pool`freed
    modifies pool.blocks`last, pool.blocks`failed, pool.blocks`next, pool.slots`alloc, pool.slots`size
    ensures pool.Valid() && u <= u' <= u + 1
    ensures Supplied(Extents(pool.slots), pool.blocks, pool.Size(), pool.max, rs, i + 1, ats, u')
    ensures Served(pool.max, pool.given, pool.records, Extents(pool.slots), rs[i], p, own)
    ensures Answers(pool.Size(), pool.max, pool.base, old(Now(pool)), rs[i], Next(ats, u), p, u < u', Now(pool))
    ensures Needs(pool.max, old(Now(pool)), rs[i], Next(ats, u), p, u < u')
    ensures u' == u ==> pool.blocks == old(pool.blocks)
    ensures own == |old(pool.given)| && old(pool.given) <= pool.given
    ensures StillHeld(old(Extents(pool.slots)), Extents(pool.slots))
    ensures forall r <- pool.records :: r in old(pool.records) || (r == own && rs[i].size > pool.max)
    ensures forall j :: 0 <= j < |pool.blocks| ==> pool.blocks[j] in old(pool.blocks) || fresh(pool.blocks[j])
    ensures forall j :: 0 <= j < |pool.slots| ==> pool.slots[j] in old(pool.slots) || fresh(pool.slots[j])
  {
    hide Pool.Shape, Pool.Unused, Listed, Separate, Recorded, LargeDone, Carves, Spots, Extents, Tight, FiveFull;
    hide Supplied, OnlyMore, StillHeld, Pool.Here;
    ghost var q, bs, es, was := rs[i], pool.blocks, Extents(pool.slots), Spots(pool.blocks);
    ghost var here := pool.Here();
    UnusedNext(pool, rs, i, ats, u);
    NothingTaken(es, q, pool.max);
    Used(pool);
    own := |pool.given|;
    var at := if u < |ats| then ats[u] else 0;
    var took;
    ghost var rec, seen;
    p, took, rec, seen := pool.Alloc(rs[i].size, rs[i].align, at, rs[i].mem);
    u' := if took then u + 1 else u;
    if q.size > pool.max && q.mem != 0 {
      TakenLaws(was, es, here, Spots(pool.blocks), Extents(pool.slots), pool.Size(), q, pool.max, at, p, took, rec);
    }
    SuppliedNext(es, bs, pool.Size(), pool.max, rs, i, ats, u, Extents(pool.slots), pool.blocks, u');
  }

  /** Any sequence of requests, and the log of it. */
  method ServeEach(pool: Pool, rs: seq<Request>, ats: seq<nat>)
    returns (ps: seq<nat>, ghost log: seq<Moment>, ghost us: seq<nat>, ghost owns: seq<nat>)
    requires pool.Valid() && pool.WordSized()
    requires Supplied(Extents(pool.slots), pool.blocks, pool.Size(), pool.max, rs, 0, ats, 0)
    modifies pool`current, pool`blocks, pool`given, pool`large, pool`slots, pool`records, pool`freed
    modifies pool.blocks`last, pool.blocks`failed, pool.blocks`next, pool.slots`alloc, pool.slots`size
    ensures pool.Valid() && |ps| == |rs| && |log| == |us| == |rs| + 1
    ensures AllServed(pool.max, pool.given, pool.records, Extents(pool.slots), rs, ps, owns)
    ensures Logged(pool.Size(), pool.max, pool.base, rs, ats, ps, log, us)
    ensures log[0] == old(Now(pool)) && log[|rs|] == Now(pool)
    ensures us[|rs|] == 0 ==> pool.blocks == old(pool.blocks)
    ensures forall j :: 0 <= j < |pool.blocks| ==> pool.blocks[j] in old(pool.blocks) || fresh(pool.blocks[j])
    ensures forall j :: 0 <= j < |pool.slots| ==> pool.slots[j] in old(pool.slots) || fresh(pool.slots[j])
  {
    hide Pool.Shape, Listed, Separate, Recorded, Supplied, AllServed, Served, StillHeld, Logged, Answers, Needs, Now;
    hide Extents, Spots, Pool.Here, Next;
    ps, owns, log, us := [], [], [Now(pool)], [0];
    var u := 0;
    assert Logged(pool.Size(), pool.max, pool.base, rs, ats, ps, log, us) by { NoneLogged(pool, rs, ats, log); }
    assert AllServed(pool.max, pool.given, pool.records, Extents(pool.slots), rs, ps, owns) by { NoneServed(pool, rs); }
    for i := 0 to |rs|
      invariant pool.Valid() && u <= i == |ps|
      invariant Supplied(Extents(pool.slots), pool.blocks, pool.Size(), pool.max, rs, i, ats, u)
      invariant AllServed(pool.max, pool.given, pool.records, Extents(pool.slots), rs, ps, owns)
      invariant Logged(pool.Size(), pool.max, pool.base, rs, ats, ps, log, us)
      invariant |log| == |us| == i + 1 && us[i] == u && log[0] == old(Now(pool)) && log[i] == Now(pool)
      invariant u == 0 ==> pool.blocks == old(pool.blocks)
      invariant forall j :: 0 <= j < |pool.blocks| ==> pool.blocks[j] in old(pool.blocks) || fresh(pool.blocks[j])
      invariant forall j :: 0 <= j < |pool.slots| ==> pool.slots[j] in old(pool.slots) || fresh(pool.slots[j])
    {
      ghost var given, records, es := pool.given, pool.records, Extents(pool.slots);
      ghost var own;
      var p;
      p, u, own := Serve(pool, rs, i, ats, u);
      LoggedMore(pool.Size(), pool.max, pool.base, rs, ats, ps, log, us, p, u, Now(pool));
      OneMore(pool.max, given, records, es, pool.given, pool.records, Extents(pool.slots), rs, ps, owns, p);
      ps, owns, log, us := ps + [p], owns + [own], log + [Now(pool)], us + [u];
    }
  }

  /** Any sequence of requests, whatever memory there is. A request gets NULL only if one of
      the allocators has nothing more, and a new block is asked for only when all blocks from
      the current one on are too full. A small request gets memory inside one block, behind its
      header, aligned if asked for, clear of all block headers and slot records; a large one
      gets memory that a slot holds. What any two of them got does not overlap. */
  method ServeAll(pool: Pool, rs: seq<Request>, ats: seq<nat>)
    returns (ps: seq<nat>, ghost log: seq<Moment>, ghost us: seq<nat>)
    requires pool.Valid() && pool.WordSized()
    requires Supplied(Extents(pool.slots), pool.blocks, pool.Size(), pool.max, rs, 0, ats, 0)
    modifies pool`current, pool`blocks, pool`given, pool`large, pool`slots, pool`records, pool`freed
    modifies pool.blocks`last, pool.blocks`failed, pool.blocks`next, pool.slots`alloc, pool.slots`size
    ensures pool.Valid() && |ps| == |rs| && |log| == |us| == |rs| + 1
    ensures Logged(pool.Size(), pool.max, pool.base, rs, ats, ps, log, us)
    ensures log[0] == old(Now(pool)) && log[|rs|] == Now(pool)
    ensures us[|rs|] == 0 ==> pool.blocks == old(pool.blocks)
    ensures forall i :: 0 <= i < |rs| && rs[i].size <= pool.max ==>
              (us[i] < us[i + 1] <==> NoPlace(log[i], rs[i].size, rs[i].align))
              && (ps[i] == 0 <==> us[i] < us[i + 1] && Next(ats, us[i]) == 0)
    ensures forall i :: 0 <= i < |rs| && ps[i] != 0 && rs[i].size > pool.max ==>
              ps[i] == rs[i].mem && Extent(ps[i], rs[i].size) in Extents(pool.slots)
    ensures forall i :: 0 <= i < |rs| && ps[i] != 0 && rs[i].size <= pool.max ==>
              (rs[i].align ==> ps[i] % ALIGNMENT == 0) && Apart(pool, ps[i], rs[i].size)
    ensures forall i, j :: 0 <= i < j < |rs| && ps[i] != 0 && ps[j] != 0 ==>
              Away(Extent(ps[i], rs[i].size), Extent(ps[j], rs[j].size))
    ensures forall j :: 0 <= j < |pool.blocks| ==> pool.blocks[j] in old(pool.blocks) || fresh(pool.blocks[j])
    ensures forall j :: 0 <= j < |pool.slots| ==> pool.slots[j] in old(pool.slots) || fresh(pool.slots[j])
  {
    hide Pool.Shape, Listed, Separate, Recorded, Supplied, AllServed, Served, Logged, NoPlace, Now, Extents, Spots;
    hide Pool.Here, Away, Apart, Next, FiveFull;
    AwayAll(Extents(pool.slots), pool.blocks, pool.Size(), pool.max, rs, ats);
    ghost var owns;
    ps, log, us, owns := ServeEach(pool, rs, ats);
    AsNeeded(pool.Size(), pool.max, pool.base, rs, ats, ps, log, us);
    Conclude(pool, rs, ps, owns);
  }

  lemma NoneServed(pool: Pool, rs: seq<Request>)
    ensures AllServed(pool.max, pool.given, pool.records, Extents(pool.slots), rs, [], [])
  {}

  lemma NoneLogged(pool: Pool, rs: seq<Request>, ats: seq<nat>, log: seq<Moment>)
    requires |log| == 1
    ensures Logged(pool.Size(), pool.max, pool.base, rs, ats, [], log, [0])
  {}

  lemma AsNeeded(psize: nat, max: nat, base: nat, rs: seq<Request>, ats: seq<nat>, ps: seq<nat>, log: seq<Moment>,
                 us: seq<nat>)
    requires Logged(psize, max, base, rs, ats, ps, log, us)
    ensures |log| == |us| == |ps| + 1 <= |rs| + 1
    ensures forall i :: 0 <= i < |ps| && rs[i].size <= max ==>
              (us[i] < us[i + 1] <==> NoPlace(log[i], rs[i].size, rs[i].align))
              && (ps[i] == 0 <==> us[i] < us[i + 1] && Next(ats, us[i]) == 0)
  {
    hide Answers, NoPlace, Next, FiveFull;
    forall i | 0 <= i < |ps| && rs[i].size <= max
      ensures us[i] < us[i + 1] <==> NoPlace(log[i], rs[i].size, rs[i].align)
      ensures ps[i] == 0 <==> us[i] < us[i + 1] && Next(ats, us[i]) == 0
    {
      assert Needs(max, log[i], rs[i], Next(ats, us[i]), ps[i], us[i] < us[i + 1]);
    }
  }

  ghost predicate MemsAway(rs: seq<Request>, max: nat) {
    forall j, k :: 0 <= j < k < |rs| && Gets(rs[j], max) && Gets(rs[k], max) ==> Away(Of(rs[j]), Of(rs[k]))
  }

  lemma AwayAll(es: seq<Extent>, bs: seq<Block>, psize: nat, max: nat, rs: seq<Request>, ats: seq<nat>)
    requires Supplied(es, bs, psize, max, rs, 0, ats, 0)
    ensures MemsAway(rs, max)
  {}

  /** The bytes from p on lie in one block, behind its header, and clear of all headers and
      slot records. */
  ghost predicate Apart(pool: Pool, p: nat, size: nat)
    reads pool`blocks, pool`slots
  {
    && (exists b <- pool.blocks :: b.addr + b.header <= p && p + size <= b.end)
    && (forall b <- pool.blocks :: p + size <= b.addr || b.addr + b.header <= p)
    && forall l <- pool.slots :: Clears(p, size, l)
  }

  lemma Conclude(pool: Pool, rs: seq<Request>, ps: seq<nat>, owns: seq<nat>)
    requires pool.Valid() && |ps| == |rs| && MemsAway(rs, pool.max)
    requires AllServed(pool.max, pool.given, pool.records, Extents(pool.slots), rs, ps, owns)
    ensures forall i :: 0 <= i < |rs| && ps[i] != 0 && rs[i].size > pool.max ==>
              ps[i] == rs[i].mem && Extent(ps[i], rs[i].size) in Extents(pool.slots)
    ensures forall i :: 0 <= i < |rs| && ps[i] != 0 && rs[i].size <= pool.max ==>
              (rs[i].align ==> ps[i] % ALIGNMENT == 0) && Apart(pool, ps[i], rs[i].size)
    ensures forall i, j :: 0 <= i < j < |rs| && ps[i] != 0 && ps[j] != 0 ==>
              Away(Extent(ps[i], rs[i].size), Extent(ps[j], rs[j].size))
  {
    hide Pool.Shape, Listed, Separate, Recorded, Apart;
    forall i | 0 <= i < |rs| && ps[i] != 0 && rs[i].size <= pool.max ensures Apart(pool, ps[i], rs[i].size) {
      OwnApart(pool, owns[i]);
    }
    forall i, j | 0 <= i < j < |rs| && ps[i] != 0 && ps[j] != 0
      ensures Away(Extent(ps[i], rs[i].size), Extent(ps[j], rs[j].size))
    {
      if rs[i].size <= pool.max && rs[j].size <= pool.max {
        SmallAway(pool, owns[i], owns[j]);
      } else if rs[i].size <= pool.max {
        LargeAway(pool, owns[i], Of(rs[j]));
      } else if rs[j].size <= pool.max {
        LargeAway(pool, owns[j], Of(rs[i]));
      }
    }
  }

  lemma SmallAway(pool: Pool, i: nat, j: nat)
    requires pool.Valid() && i < |pool.given| && j < |pool.given| && i != j
    ensures Disjoint(pool.given[i], pool.given[j])
  {
    pool.PiecesApart();
    EitherOrder(pool.given, i, j);
    hide Pool.Shape, Listed, Separate, Recorded;
  }

  lemma LargeAway(pool: Pool, i: nat, e: Extent)
    requires pool.Valid() && i < |pool.given| && e in Extents(pool.slots) && e.at != 0
    ensures Away(Extent(pool.given[i].at, pool.given[i].size), e)
  {
    hide Chain, Counts, Layout, Carved, Separate, Listed, Recorded, CurrentAt, Extents, Away;
    LargeFromPieces(pool.blocks, pool.Size(), pool.given, Extents(pool.slots), i, e);
  }

  lemma LargeFromPieces(bs: seq<Block>, psize: nat, given: seq<Chunk>, es: seq<Extent>, i: nat, e: Extent)
    requires Layout(bs, psize) && Carved(bs, given) && Separate(es, bs) && i < |given| && e in es && e.at != 0
    ensures Away(Extent(given[i].at, given[i].size), e)
  {
    assert Inside(given[i], bs);
    var k :| 0 <= k < |bs| && bs[k] == given[i].block;
    var l :| 0 <= l < |es| && es[l] == e;
    assert Outside(e, bs[k]) && LaidOut(bs[k], psize);
  }

  lemma OwnApart(pool: Pool, own: nat)
    requires pool.Valid() && own < |pool.given| && own !in pool.records
    ensures Apart(pool, pool.given[own].at, pool.given[own].size)
  {
    pool.PiecesApart();
    pool.RecordsApart();
    hide Pool.Shape, Listed, Separate, Recorded;
    assert Inside(pool.given[own], pool.blocks);
  }

  // ---- pools whose size is not a multiple of the word size

  /** One unaligned piece, as large as possible, from a pool of one block. */
  method FillMore(pool: Pool)
    requires pool.Valid() && pool.blocks == [pool.d] && pool.slots == []
    requires pool.max > 0 && pool.d.last < pool.d.end
    modifies pool`current, pool`blocks, pool`given, pool`large, pool`slots, pool`records, pool`freed
    modifies pool.d`last, pool.d`failed, pool.d`next
    ensures pool.Valid() && pool.blocks == [pool.d] && pool.slots == []
    ensures old(pool.d.last) < pool.d.last <= pool.d.end
  {
    var n := Min(pool.d.end - pool.d.last, pool.max);
    ghost var was := Spots(pool.blocks)[0];
    assert Suits(was, n, false, was.last);
    pool.HereIs();
    assert pool.Here() == 0;
    assert forall i :: 0 <= i < |pool.blocks| ==> pool.blocks[i] == pool.d;
    hide Pool.Shape, Listed, Separate, Recorded, Pool.Here;
    var p, took;
    ghost var rec, seen;
    p, took, rec, seen := pool.Alloc(n, false, 0, 0);
    FirstIsPlace(was, n, false, p);
    assert Spots(pool.blocks)[0] == was.(last := p + n);
  }

  /** A pool of any other size gets into a state, by unaligned pieces alone, where the first
      block is full and the room test sees room in it for every aligned request: the piece
      handed out would lie behind the end of the block. */
  method OddPool(size: nat, at: nat) returns (pool: Pool)
    requires size > POOL_HEADER && size % ALIGNMENT != 0
    requires at != 0 && at % POOL_ALIGNMENT == 0 && at + size + ALIGNMENT <= WORD
    ensures fresh(pool) && pool.Valid() && !pool.WordSized() && pool.current == pool.d && pool.d.last == pool.d.end
    ensures forall n: nat :: n <= pool.max ==>
              HasRoom(pool.d.last, pool.d.end, n, true) && !Room(pool.d, n, true) && AlignPtr(pool.d.last) > pool.d.end
  {
    hide Pool.Shape, Listed, Separate, Recorded, Left, AlignPtr;
    pool := new Pool(size, at);
    while pool.d.last < pool.d.end
      invariant fresh(pool) && fresh(pool.d) && pool.Valid() && pool.blocks == [pool.d] && pool.slots == []
      invariant pool.d.addr == at && pool.d.end == at + size && pool.max > 0 && pool.d.last <= pool.d.end
      decreases pool.d.end - pool.d.last
    {
      FillMore(pool);
    }
    OddEnd(pool.d.end, at, size);
    Starts(pool);
  }

  lemma Starts(pool: Pool)
    requires pool.Shape() && pool.blocks == [pool.d]
    ensures pool.current == pool.d && pool.max <= MAX_SMALL
  {
    assert CurrentAt(1, pool.base) == 0;
  }

  lemma OddEnd(end: nat, at: nat, size: nat)
    requires at % POOL_ALIGNMENT == 0 && size % ALIGNMENT != 0 && end == at + size && end + ALIGNMENT <= WORD
    ensures AlignPtr(end) > end
    ensures forall n: nat :: n <= MAX_SMALL ==> HasRoom(end, end, n, true)
  {
    EndsOff(end, at, size);
    AlignUp(end);
    hide AlignPtr;
    WrapsAround(end, AlignPtr(end));
    hide Left;
  }

  lemma EndsOff(end: nat, at: nat, size: nat)
    requires at % POOL_ALIGNMENT == 0 && size % ALIGNMENT != 0 && end == at + size
    ensures end % ALIGNMENT != 0
  {}

  /** Seen from beyond its end, a block seems to have room for almost everything. */
  lemma WrapsAround(end: nat, m: nat)
    requires end < m < WORD && m < end + ALIGNMENT
    ensures Left(end, m) > MAX_SMALL
  {
    assert Left(end, m) == WORD + end - m;
  }
}
