/** The memory pools of src/nc_palloc.c. Addresses are numbers; the headers that the C code
    keeps at the front of each piece of memory are objects that know their address. */
module NcPool {
  import opened Words
  import opened PoolMath

  /** struct nc_pool_data: the header of a block of memory from addr up to end. */
  class Block {
    const addr: nat
    const end: nat
    ghost const header: nat
    var last: nat
    var failed: nat
    var next: Block?

    constructor (addr: nat, end: nat, ghost header: nat, last: nat)
      ensures this.addr == addr && this.end == end && this.header == header && this.last == last
      ensures failed == 0 && next == null
    {
      this.addr, this.end, this.header, this.last := addr, end, header, last;
      failed, next := 0, null;
    }
  }

  /** struct nc_pool_large, itself carved from a block at address at; NULL is 0. */
  class Large {
    const at: nat
    var next: Large?
    var alloc: nat
    // how many bytes there are at alloc
    ghost var size: nat

    constructor (at: nat, alloc: nat, ghost size: nat, next: Large?)
      ensures this.at == at && this.alloc == alloc && this.size == size && this.next == next
    {
      this.at, this.alloc, this.size, this.next := at, alloc, size, next;
    }
  }

  /** Memory at an address. */
  datatype Extent = Extent(at: nat, size: nat)

  /** What a request gets to see of a block. */
  datatype Spot = Spot(addr: nat, header: nat, end: nat, last: nat)

  /** A piece of a block that was handed out. */
  datatype Chunk = Chunk(at: nat, size: nat, block: Block)

  // ---- what blocks, chunks and slots look like

  /** The blocks of a pool, in list order. */
  ghost predicate Chain(bs: seq<Block>)
    reads bs`next
  {
    && (forall i, j :: 0 <= i < j < |bs| ==> bs[i] != bs[j])
    && forall i :: 0 <= i < |bs| ==> bs[i].next == if i + 1 < |bs| then bs[i + 1] else null
  }

  lemma ChainNext(bs: seq<Block>, i: nat)
    requires Chain(bs) && i < |bs|
    ensures bs[i].next == if i + 1 < |bs| then bs[i + 1] else null
    ensures forall j :: 0 <= j < |bs| && j != i ==> bs[j] != bs[i]
  {}

  ghost function BlockAt(bs: seq<Block>, i: nat): Block? {
    if i < |bs| then bs[i] else null
  }

  lemma NextIs(bs: seq<Block>, i: nat)
    requires Chain(bs) && i < |bs|
    ensures bs[i].next == BlockAt(bs, i + 1)
  {
    assert bs[i].next == if i + 1 < |bs| then bs[i + 1] else null;
  }

  /** A block of psize bytes, used up to last. */
  ghost predicate LaidOut(b: Block, psize: nat)
    reads b`last
  {
    && b.addr != 0 && b.addr % POOL_ALIGNMENT == 0 && b.end == b.addr + psize && b.end + ALIGNMENT <= WORD
    && BLOCK_HEADER <= b.header <= POOL_HEADER && b.addr + b.header <= b.last <= b.end
  }

  lemma EndAligned(b: Block, psize: nat)
    requires LaidOut(b, psize) && psize % ALIGNMENT == 0
    ensures b.end % ALIGNMENT == 0
  {
    var q, r := b.addr / POOL_ALIGNMENT, psize / ALIGNMENT;
    assert b.addr == POOL_ALIGNMENT * q && psize == ALIGNMENT * r;
    ModUnique(b.end, ALIGNMENT, 2 * q + r, 0);
  }

  ghost predicate Clear(at: nat, end: nat, b: Block) {
    end <= b.addr || b.end <= at
  }

  ghost predicate Layout(bs: seq<Block>, psize: nat)
    reads bs`last
  {
    && (forall i :: 0 <= i < |bs| ==> LaidOut(bs[i], psize))
    && forall i, j :: 0 <= i < j < |bs| ==> Clear(bs[i].addr, bs[i].end, bs[j])
  }

  ghost predicate Counts(bs: seq<Block>, base: nat)
    requires base <= |bs|
    reads bs`failed
  {
    forall i :: 0 <= i < |bs| ==> bs[i].failed == FailedAt(i, |bs|, base)
  }

  /** c lies in the used part of one of the blocks, behind its header. */
  ghost predicate Inside(c: Chunk, bs: seq<Block>)
    reads c.block`last
  {
    c.block in bs && c.block.addr + c.block.header <= c.at && c.at + c.size <= c.block.last
  }

  ghost predicate Disjoint(c: Chunk, d: Chunk) {
    c.at + c.size <= d.at || d.at + d.size <= c.at
  }

  ghost predicate Carved(bs: seq<Block>, given: seq<Chunk>)
    reads bs`last
  {
    && (forall i :: 0 <= i < |given| ==> given[i].block in bs && Inside(given[i], bs))
    && forall i, j :: 0 <= i < j < |given| ==> Disjoint(given[i], given[j])
  }

  /** Room for size more bytes in b. */
  ghost predicate Room(b: Block, size: nat, align: bool)
    reads b`last
  {
    Fits(b.last, b.end, size, align)
  }

  /** The blocks as requests see them. */
  ghost function Spots(bs: seq<Block>): (r: seq<Spot>)
    reads bs
    ensures |r| == |bs|
    ensures forall i :: 0 <= i < |bs| ==> r[i] == Spot(bs[i].addr, bs[i].header, bs[i].end, bs[i].last)
  {
    seq(|bs|, i requires 0 <= i < |bs| reads bs => Spot(bs[i].addr, bs[i].header, bs[i].end, bs[i].last))
  }

  /** m is a place for size bytes in what is left of s. */
  ghost predicate Suits(s: Spot, size: nat, align: bool, m: nat) {
    s.last <= m && m + size <= s.end && (align ==> m % ALIGNMENT == 0)
  }

  /** There is none. */
  ghost predicate Tight(s: Spot, size: nat, align: bool) {
    forall m: nat :: !Suits(s, size, align, m)
  }

  /** m is the first place. */
  ghost predicate FirstPlace(s: Spot, size: nat, align: bool, m: nat) {
    Suits(s, size, align, m) && forall n: nat :: Suits(s, size, align, n) ==> m <= n
  }

  lemma PlaceLaws(s: Spot, size: nat, align: bool)
    requires s.last + ALIGNMENT <= WORD
    ensures Tight(s, size, align) <==> !Fits(s.last, s.end, size, align)
    ensures Fits(s.last, s.end, size, align) ==> FirstPlace(s, size, align, AlignIf(s.last, align))
  {
    AlignUp(s.last);
    var m := AlignIf(s.last, align);
    hide AlignPtr;
    forall n: nat | Suits(s, size, align, n) ensures m <= n {
      if align { NotBeyond(m, n); }
    }
    if Fits(s.last, s.end, size, align) { assert Suits(s, size, align, m); }
  }

  lemma FirstIsPlace(s: Spot, size: nat, align: bool, m: nat)
    requires FirstPlace(s, size, align, m)
    ensures s.last <= m && m + size <= s.end && !Tight(s, size, align)
  {
    assert Suits(s, size, align, m);
  }

  /** An empty block has one place for all that is left. */
  lemma EmptyPlace(s: Spot, psize: nat)
    requires s.addr % POOL_ALIGNMENT == 0 && s.last == s.addr + POOL_HEADER && s.end == s.addr + psize
    requires psize >= POOL_HEADER
    ensures FirstPlace(s, psize - POOL_HEADER, true, s.addr + POOL_HEADER)
  {
    var q := s.addr / POOL_ALIGNMENT;
    assert s.addr == POOL_ALIGNMENT * q;
    ModUnique(s.addr + POOL_HEADER, ALIGNMENT, 2 * q + 8, 0);
    assert Suits(s, psize - POOL_HEADER, true, s.addr + POOL_HEADER);
  }

  /** What a small request does to the blocks, if searches start at number cur and a new block
      would come to be at address at: the first block with a place gives its first place, and
      a new one is taken if and only if there is none; without memory for that, m is NULL. */
  ghost predicate Carves(was: seq<Spot>, cur: nat, now: seq<Spot>, psize: nat, size: nat, align: bool, at: nat, m: nat,
                         took: bool)
  {
    && (took <==> forall i :: cur <= i < |was| ==> Tight(was[i], size, align))
    && if took then
         if at == 0 then m == 0 && now == was
         else m == at + BLOCK_HEADER && now == was + [Spot(at, BLOCK_HEADER, at + psize, m + size)]
       else exists k :: cur <= k < |was| && (forall i :: cur <= i < k ==> Tight(was[i], size, align))
                        && FirstPlace(was[k], size, align, m) && now == was[k := was[k].(last := m + size)]
  }

  /** What a large request does once it has memory at mem: the first empty slot among the first
      five takes it; if there is none, a new one in front, carved at address rec, or none when
      that fails. */
  ghost predicate LargeDone(was: seq<Spot>, es: seq<Extent>, cur: nat, now: seq<Spot>, es': seq<Extent>, psize: nat,
                            size: nat, at: nat, mem: nat, p: nat, took: bool, rec: nat)
  {
    if FiveFull(es) then
      && Carves(was, cur, now, psize, RECORD, true, at, rec, took)
      && p == (if rec == 0 then 0 else mem) && es' == (if rec == 0 then es else [Extent(mem, size)] + es)
    else
      && p == mem && !took && rec == 0 && now == was
      && exists j :: 0 <= j < 5 && j < |es| && es[j].at == 0 && (forall i :: 0 <= i < j ==> es[i].at != 0)
                     && es' == es[j := Extent(mem, size)]
  }

  /** The place of b among bs, or their number. */
  ghost function IndexIn(bs: seq<Block>, b: Block): (k: nat)
    ensures k <= |bs| && (k < |bs| ==> bs[k] == b) && b !in bs[..k]
  {
    if bs == [] || bs[0] == b then 0 else 1 + IndexIn(bs[1..], b)
  }

  lemma {:induction false} IndexIs(bs: seq<Block>, k: nat)
    requires k < |bs| && forall i, j :: 0 <= i < j < |bs| ==> bs[i] != bs[j]
    ensures IndexIn(bs, bs[k]) == k
  {
    if k > 0 { IndexIs(bs[1..], k - 1); }
  }

  /** The blocks before number k are empty again. */
  ghost predicate Rewound(bs: seq<Block>, k: nat)
    reads bs`last, bs`failed
  {
    forall i :: 0 <= i < |bs| && i < k ==> bs[i].last == bs[i].addr + POOL_HEADER && bs[i].failed == 0
  }

  lemma RewoundLayout(bs: seq<Block>, psize: nat)
    requires Layout(bs, psize) && Rewound(bs, |bs|) && bs != []
    ensures Counts(bs, |bs|) && Carved(bs, []) && CurrentAt(|bs|, |bs|) == 0
  {
    forall i | 0 <= i < |bs| ensures bs[i].failed == FailedAt(i, |bs|, |bs|) {}
  }

  /** One more chunk, in front of the end of block number k. */
  lemma CarveKeeps(bs: seq<Block>, psize: nat, given: seq<Chunk>, k: nat, c: Chunk)
    requires k < |bs| && Layout(bs, psize) && Carved(bs, given)
    requires c.block == bs[k] && bs[k].last <= c.at && c.at + c.size <= bs[k].end
    ensures forall i :: 0 <= i < |given| ==> Disjoint(given[i], c)
  {
    forall i | 0 <= i < |given| ensures Disjoint(given[i], c) {
      assert Inside(given[i], bs);
      var j :| 0 <= j < |bs| && bs[j] == given[i].block;
      assert LaidOut(bs[j], psize) && LaidOut(bs[k], psize);
      if j < k {
        assert Clear(bs[j].addr, bs[j].end, bs[k]);
      } else if k < j {
        assert Clear(bs[k].addr, bs[k].end, bs[j]);
      }
    }
  }

  /** A chunk in a new block. */
  lemma FreshKeeps(bs: seq<Block>, psize: nat, given: seq<Chunk>, b: Block, c: Chunk)
    requires Layout(bs, psize) && Carved(bs, given) && LaidOut(b, psize)
    requires forall i :: 0 <= i < |bs| ==> Clear(b.addr, b.end, bs[i])
    requires b.addr <= c.at && c.at + c.size <= b.end
    ensures forall i :: 0 <= i < |given| ==> Disjoint(given[i], c)
  {
    forall i | 0 <= i < |given| ensures Disjoint(given[i], c) {
      assert Inside(given[i], bs);
      var j :| 0 <= j < |bs| && bs[j] == given[i].block;
      assert LaidOut(bs[j], psize) && Clear(b.addr, b.end, bs[j]);
    }
  }

  /** A new block as the only one. */
  lemma OneBlock(b: Block, psize: nat)
    requires LaidOut(b, psize) && b.next == null && b.failed == 0
    ensures Chain([b]) && Layout([b], psize) && Carved([b], []) && Counts([b], 1) && CurrentAt(1, 1) == 0
  {}

  lemma CountsPlus(bs: seq<Block>, base: nat, b: Block)
    requires 1 <= base <= |bs| && b.failed == 0
    requires forall i :: 0 <= i < |bs| ==> bs[i].failed == FailedAt(i, |bs| + 1, base)
    ensures Counts(bs + [b], base)
  {
    CountEnds(|bs|, base);
  }

  lemma LayoutPlus(bs: seq<Block>, psize: nat, b: Block)
    requires Layout(bs, psize) && LaidOut(b, psize) && forall i :: 0 <= i < |bs| ==> Clear(b.addr, b.end, bs[i])
    ensures Layout(bs + [b], psize)
  {}

  lemma CarvedMore(bs: seq<Block>, given: seq<Chunk>, c: Chunk)
    requires Carved(bs, given) && Inside(c, bs) && forall i :: 0 <= i < |given| ==> Disjoint(given[i], c)
    ensures Carved(bs, given + [c])
  {}

  /** One more block with its first chunk. */
  lemma WithBlock(bs: seq<Block>, psize: nat, given: seq<Chunk>, b: Block, c: Chunk)
    requires Layout(bs, psize) && Carved(bs, given) && LaidOut(b, psize)
    requires forall i :: 0 <= i < |bs| ==> Clear(b.addr, b.end, bs[i])
    requires c.block == b && b.addr + b.header <= c.at && c.at + c.size <= b.last
    ensures Layout(bs + [b], psize) && Carved(bs + [b], given + [c])
  {
    FreshKeeps(bs, psize, given, b, c);
    LayoutPlus(bs, psize, b);
    hide Layout;
    assert Carved(bs + [b], given);
    CarvedMore(bs + [b], given, c);
  }

  ghost function SlotAt(ls: seq<Large>, i: nat): Large? {
    if i < |ls| then ls[i] else null
  }

  /** The slots of a pool, in list order. */
  ghost predicate Listed(ls: seq<Large>, head: Large?)
    reads ls`next
  {
    && head == SlotAt(ls, 0)
    && (forall i, j :: 0 <= i < j < |ls| ==> ls[i] != ls[j])
    && forall i :: 0 <= i < |ls| ==> ls[i].next == SlotAt(ls, i + 1)
  }

  ghost function Ats(es: seq<Extent>): (r: seq<nat>)
    ensures |r| == |es| && forall i :: 0 <= i < |es| ==> r[i] == es[i].at
  {
    seq(|es|, i requires 0 <= i < |es| => es[i].at)
  }

  /** What the slots hold: addresses of large pieces of memory, 0 in an empty slot. */
  ghost function Allocs(ls: seq<Large>): (r: seq<nat>)
    reads ls
    ensures |r| == |ls| && forall i :: 0 <= i < |ls| ==> r[i] == ls[i].alloc
  {
    Ats(Extents(ls))
  }

  /** The large pieces of memory; address 0 for an empty slot. */
  ghost function Extents(ls: seq<Large>): (r: seq<Extent>)
    reads ls
    ensures |r| == |ls| && forall i :: 0 <= i < |ls| ==> r[i] == Extent(ls[i].alloc, ls[i].size)
  {
    seq(|ls|, i requires 0 <= i < |ls| reads ls => Extent(ls[i].alloc, ls[i].size))
  }

  ghost predicate Away(e: Extent, f: Extent) {
    e.at + e.size <= f.at || f.at + f.size <= e.at
  }

  /** Large pieces of memory overlap neither with each other nor with a block. */
  ghost predicate Separate(es: seq<Extent>, bs: seq<Block>) {
    && (forall i :: 0 <= i < |es| && es[i].at != 0 ==> es[i].size > 0)
    && (forall i, j :: 0 <= i < j < |es| && es[i].at != 0 && es[j].at != 0 ==> Away(es[i], es[j]))
    && forall i, j :: 0 <= i < |es| && es[i].at != 0 && 0 <= j < |bs| ==> Outside(es[i], bs[j])
  }

  ghost predicate Outside(e: Extent, b: Block) { Clear(e.at, e.at + e.size, b) }

  /** The number of the first slot that holds x, or the number of slots. */
  ghost function FirstOf(allocs: seq<nat>, x: nat): (k: nat)
    ensures k <= |allocs| && (k < |allocs| ==> allocs[k] == x) && x !in allocs[..k]
    ensures k < |allocs| <==> x in allocs
  {
    if allocs == [] || allocs[0] == x then 0 else 1 + FirstOf(allocs[1..], x)
  }

  lemma HeldPlus(ls: seq<Large>, l: Large)
    ensures Allocs([l] + ls) == [l.alloc] + Allocs(ls) && Extents([l] + ls) == [Extent(l.alloc, l.size)] + Extents(ls)
  {}

  lemma ListedPlus(ls: seq<Large>, head: Large?, l: Large)
    requires Listed(ls, head) && l !in ls && l.next == head
    ensures Listed([l] + ls, l)
  {
    var t := [l] + ls;
    forall i | 0 <= i < |t| ensures t[i].next == SlotAt(t, i + 1) {
      assert SlotAt(t, i + 1) == SlotAt(ls, i);
      if i > 0 {
        var k := i - 1;
        assert t[i] == ls[k] && ls[k].next == SlotAt(ls, k + 1);
      }
    }
    forall i, j | 0 <= i < j < |t| ensures t[i] != t[j] {
      if i > 0 { assert t[i] == ls[i - 1] && t[j] == ls[j - 1]; }
    }
  }

  lemma {:induction false} FirstIs(allocs: seq<nat>, x: nat, n: nat)
    requires n <= |allocs| && forall j :: 0 <= j < n ==> allocs[j] != x
    ensures FirstOf(allocs, x) >= n && (n < |allocs| && allocs[n] == x ==> FirstOf(allocs, x) == n)
  {
    if n > 0 { FirstIs(allocs[1..], x, n - 1); }
  }

  /** The addresses among allocs. */
  ghost function Held(allocs: seq<nat>): seq<nat> {
    if allocs == [] then []
    else if allocs[0] == 0 then Held(allocs[1..]) else [allocs[0]] + Held(allocs[1..])
  }

  /** Memory that nobody holds. */
  ghost predicate Unheld(e: Extent, es: seq<Extent>, bs: seq<Block>) {
    && (forall i :: 0 <= i < |es| && es[i].at != 0 ==> Away(e, es[i]))
    && forall i :: 0 <= i < |bs| ==> Outside(e, bs[i])
  }

  lemma SeparateGrown(es: seq<Extent>, was: seq<Block>, now: seq<Block>, at: nat, size: nat)
    requires Separate(es, was)
    requires at != 0 ==> forall i :: 0 <= i < |es| && es[i].at != 0 ==> Away(Extent(at, size), es[i])
    requires now == was ||
             (at != 0 && |now| == |was| + 1 && now[..|was|] == was && now[|was|].addr == at
                 && now[|was|].end == at + size)
    ensures Separate(es, now)
  {
    forall i, j | 0 <= i < |es| && es[i].at != 0 && 0 <= j < |now| ensures Outside(es[i], now[j]) {
      if j < |was| { assert now[j] == was[j]; }
    }
  }

  lemma SeparateMore(es: seq<Extent>, bs: seq<Block>, e: Extent)
    requires Separate(es, bs) && Unheld(e, es, bs) && e.size > 0
    ensures Separate([e] + es, bs)
  {}

  lemma SeparateAt(es: seq<Extent>, bs: seq<Block>, k: nat, e: Extent)
    requires Separate(es, bs) && k < |es| && Unheld(e, es, bs) && e.size > 0
    ensures Separate(es[k := e], bs)
  {}

  ghost function Piece(x: nat): multiset<nat> { if x == 0 then multiset{} else multiset{x} }

  lemma HeldFront(allocs: seq<nat>)
    requires allocs != []
    ensures multiset(Held(allocs)) == Piece(allocs[0]) + multiset(Held(allocs[1..]))
  {}

  lemma Regroup(p: multiset<nat>, q: multiset<nat>, r: multiset<nat>)
    ensures (p + q) + r == p + (q + r) && (p + q) + r == (r + q) + p
  {}

  lemma {:induction false} HeldNext(allocs: seq<nat>, k: nat)
    requires k < |allocs|
    ensures Held(allocs[..k + 1]) == Held(allocs[..k]) + Held([allocs[k]])
  {
    if k > 0 {
      HeldNext(allocs[1..], k - 1);
      assert allocs[..k + 1][1..] == allocs[1..][..k] && allocs[..k][1..] == allocs[1..][..k - 1];
    } else {
      assert allocs[..1] == [allocs[0]];
    }
  }

  lemma HeldAfter(freed: seq<nat>, allocs: seq<nat>, k: nat)
    requires k < |allocs|
    ensures freed + Held(allocs[..k + 1]) == freed + Held(allocs[..k]) + Held([allocs[k]])
  {
    HeldNext(allocs, k);
  }

  lemma {:induction false} HeldAre(allocs: seq<nat>)
    ensures forall x :: x in Held(allocs) <==> x != 0 && x in allocs
  {
    if allocs != [] {
      HeldAre(allocs[1..]);
      assert forall x :: x in allocs <==> x == allocs[0] || x in allocs[1..];
    }
  }

  lemma {:induction false} HeldOnce(allocs: seq<nat>)
    requires forall i, j :: 0 <= i < j < |allocs| && allocs[i] != 0 ==> allocs[i] != allocs[j]
    ensures forall i, j :: 0 <= i < j < |Held(allocs)| ==> Held(allocs)[i] != Held(allocs)[j]
  {
    if allocs != [] {
      HeldOnce(allocs[1..]);
      HeldAre(allocs[1..]);
      var h := Held(allocs[1..]);
      assert forall j :: 0 <= j < |h| ==> h[j] in h;
    }
  }

  ghost function Addrs(bs: seq<Block>): (r: seq<nat>)
    ensures |r| == |bs| && forall i :: 0 <= i < |bs| ==> r[i] == bs[i].addr
  {
    seq(|bs|, i requires 0 <= i < |bs| => bs[i].addr)
  }

  /** No block is at the null pointer. */
  ghost predicate Addressed(bs: seq<Block>) { forall i :: 0 <= i < |bs| ==> bs[i].addr != 0 }

  /** The blocks before number i. */
  ghost function Firsts(bs: seq<Block>, i: nat): set<Block>
    requires i <= |bs|
  {
    if i == 0 then {} else Firsts(bs, i - 1) + {bs[i - 1]}
  }

  lemma {:induction false} FirstsAre(bs: seq<Block>, i: nat)
    requires i <= |bs|
    ensures forall b :: b in Firsts(bs, i) <==> b in bs[..i]
  {
    if i > 0 {
      FirstsAre(bs, i - 1);
      assert bs[..i] == bs[..i - 1] + [bs[i - 1]];
    }
  }

  /** In a chain, block number i is none of those before it. */
  lemma FirstsNext(bs: seq<Block>, i: nat)
    requires Chain(bs) && i < |bs|
    ensures bs[i] !in Firsts(bs, i) && Firsts(bs, i + 1) == Firsts(bs, i) + {bs[i]}
  {
    FirstsAre(bs, i);
  }

  lemma AddrsNext(freed: seq<nat>, bs: seq<Block>, i: nat)
    requires i < |bs|
    ensures freed + Addrs(bs[..i]) + [bs[i].addr] == freed + Addrs(bs[..i + 1])
  {
    assert Addrs(bs[..i + 1]) == Addrs(bs[..i]) + [bs[i].addr];
  }

  /** The slots before number k are empty by now. */
  ghost predicate Wiped(now: seq<nat>, was: seq<nat>, k: nat) {
    |now| == |was| && forall i :: 0 <= i < |now| ==> now[i] == if i < k then 0 else was[i]
  }

  lemma WipeNone(was: seq<nat>)
    ensures Wiped(was, was, 0)
  {}

  lemma WipeStep(now: seq<nat>, was: seq<nat>, k: nat)
    requires Wiped(now, was, k) && k < |now|
    ensures Wiped(now[k := 0], was, k + 1) && now[k] == was[k]
  {}

  /** A slot that changes hands. */
  lemma {:induction false} HeldSet(allocs: seq<nat>, k: nat, x: nat)
    requires k < |allocs|
    ensures multiset(Held(allocs[k := x])) + Piece(allocs[k]) == multiset(Held(allocs)) + Piece(x)
  {
    hide Held, Piece;
    var now := allocs[k := x];
    HeldFront(allocs);
    HeldFront(now);
    if k > 0 {
      HeldSet(allocs[1..], k - 1, x);
      assert now[1..] == allocs[1..][k - 1 := x];
      Regroup(Piece(allocs[0]), multiset(Held(now[1..])), Piece(allocs[k]));
      Regroup(Piece(allocs[0]), multiset(Held(allocs[1..])), Piece(x));
    } else {
      assert now[1..] == allocs[1..];
      Regroup(Piece(x), multiset(Held(now[1..])), Piece(allocs[0]));
    }
  }

  /** None of the first five slots is empty. */
  ghost predicate FiveFull(es: seq<Extent>) {
    forall j :: 0 <= j < 5 && j < |es| ==> es[j].at != 0
  }

  /** A piece that a slot takes, be it an empty one or a new one, is one large piece more. */
  lemma TakenHeld(was: seq<Extent>, now: seq<Extent>, e: Extent, j: nat)
    requires now == [e] + was || (j < |was| && was[j].at == 0 && now == was[j := e])
    requires e.at != 0
    ensures multiset(Held(Ats(now))) == multiset(Held(Ats(was))) + multiset{e.at}
  {
    if now == [e] + was {
      assert Ats(now) == [e.at] + Ats(was) && ([e.at] + Ats(was))[1..] == Ats(was);
    } else {
      assert Ats(now) == Ats(was)[j := e.at];
      HeldSet(Ats(was), j, e.at);
    }
  }

  lemma SeparateLess(es: seq<Extent>, bs: seq<Block>, k: nat)
    requires Separate(es, bs) && k < |es|
    ensures Separate(es[k := Extent(0, es[k].size)], bs)
  {}

  /** Slot number i was carved as piece number recs[i], and that for no other slot. */
  ghost predicate Recorded(ls: seq<Large>, given: seq<Chunk>, recs: seq<nat>) {
    && |recs| == |ls|
    && (forall i :: 0 <= i < |recs| ==> IsRecord(ls[i], given, recs[i]))
    && forall i, j :: 0 <= i < j < |recs| ==> recs[i] != recs[j]
  }

  ghost predicate IsRecord(l: Large, given: seq<Chunk>, r: nat) {
    r < |given| && given[r].at == l.at && given[r].size == RECORD
  }

  lemma RecordedPlus(ls: seq<Large>, given: seq<Chunk>, recs: seq<nat>, l: Large, c: Chunk)
    requires Recorded(ls, given, recs) && c.at == l.at && c.size == RECORD
    ensures Recorded([l] + ls, given + [c], [|given|] + recs)
  {
    var t, now := [l] + ls, [|given|] + recs;
    forall i | 0 <= i < |now| ensures IsRecord(t[i], given + [c], now[i]) {
      if i > 0 { assert IsRecord(ls[i - 1], given, recs[i - 1]); }
    }
    forall i, j | 0 <= i < j < |now| ensures now[i] != now[j] {
      if i == 0 {
        assert IsRecord(ls[j - 1], given, recs[j - 1]);
      } else {
        assert now[i] == recs[i - 1] && now[j] == recs[j - 1];
      }
    }
  }

  lemma RecordedStill(ls: seq<Large>, given: seq<Chunk>, recs: seq<nat>, now: seq<Chunk>)
    requires Recorded(ls, given, recs) && given <= now
    ensures Recorded(ls, now, recs) && forall i <- recs :: i < |given|
  {
    forall i | 0 <= i < |recs| ensures IsRecord(ls[i], now, recs[i]) && recs[i] < |given| {
      assert IsRecord(ls[i], given, recs[i]);
    }
  }

  lemma NoSlots(bs: seq<Block>)
    ensures Listed([], null) && Separate(Extents([]), bs) && Recorded([], [], [])
  {}

  ghost predicate FreeFor(spare: nat, bs: seq<Block>, psize: nat) {
    && spare != 0 && spare % POOL_ALIGNMENT == 0 && spare + psize + ALIGNMENT <= WORD
    && forall i :: 0 <= i < |bs| ==> Clear(spare, spare + psize, bs[i])
  }

  /** What nc_memalign may return for another block: NULL, or memory that nobody holds. */
  ghost predicate BlockFor(at: nat, es: seq<Extent>, bs: seq<Block>, psize: nat) {
    at == 0 || (FreeFor(at, bs, psize) && Unheld(Extent(at, psize), es, bs))
  }

  /** What nc_alloc may return for size bytes if nc_memalign is to return at afterwards. */
  ghost predicate PieceFor(mem: nat, size: nat, at: nat, es: seq<Extent>, bs: seq<Block>, psize: nat) {
    mem == 0 || (Unheld(Extent(mem, size), es, bs) && (at == 0 || Away(Extent(at, psize), Extent(mem, size))))
  }

  class Pool {
    const d: Block
    const max: nat
    var current: Block
    var large: Large?
    // what nc_free was called with
    var freed: seq<nat>

    ghost var blocks: seq<Block>
    ghost var slots: seq<Large>
    // all small pieces handed out since the last reset
    ghost var given: seq<Chunk>
    // which of them became slots: piece number records[i] is slot number i
    ghost var records: seq<nat>
    // the number of blocks at the last reset
    ghost var base: nat
    // the blocks that have been freed
    ghost var gone: set<Block>

    ghost function Size(): nat {
      if d.end < d.addr then 0 else d.end - d.addr
    }

    ghost predicate Valid()
      reads this, d, blocks, slots
    {
      && Shape()
      && Listed(slots, large) && Separate(Extents(slots), blocks) && Recorded(slots, given, records)
      && gone == {}
    }

    ghost predicate Sized()
      reads this`blocks
    {
      && blocks != [] && d == blocks[0] && d.header == POOL_HEADER
      && Size() >= POOL_HEADER && max == Min(Size() - POOL_HEADER, MAX_SMALL)
    }

    /** Blocks and chunks; the part of Valid that small allocations are about. */
    ghost predicate Shape()
      reads this`current, this`blocks, this`given, this`base, d, blocks
    {
      && Sized() && Chain(blocks) && Layout(blocks, Size()) && Carved(blocks, given)
      && 1 <= base <= |blocks| && Counts(blocks, base) && current == blocks[CurrentAt(|blocks|, base)]
    }

    /** Blocks end on a word boundary; aligned pieces need that, see RoomCanBeTrusted. */
    ghost predicate WordSized() { Size() % ALIGNMENT == 0 }

    /** Where nc_memalign may put another block. */
    ghost predicate Free(spare: nat)
      reads this`blocks
    {
      FreeFor(spare, blocks, Size())
    }

    /** nc_pool_create, with the address that nc_memalign returns. */
    constructor (size: nat, at: nat)
      requires size >= POOL_HEADER
      requires at != 0 && at % POOL_ALIGNMENT == 0 && at + size + ALIGNMENT <= WORD
      ensures Valid() && fresh(d) && blocks == [d] && given == [] && slots == [] && freed == [] && base == 1
      ensures d.addr == at && d.end == at + size && d.last == at + POOL_HEADER
      ensures max == Min(size - POOL_HEADER, MAX_SMALL)
    {
      hide Layout, Chain, Counts, Carved, Listed, Separate, Recorded, CurrentAt, Extents, Allocs;
      var p := new Block(at, at + size, POOL_HEADER, at + POOL_HEADER);
      d := p;
      max := Min(size - POOL_HEADER, MAX_SMALL);
      current := p;
      large := null;
      freed := [];
      blocks, slots, given, records, base, gone := [p], [], [], [], 1, {};
      new;
      OneBlock(d, size);
      NoSlots([d]);
    }

    /** The walk of nc_palloc_block at block number j: those behind have been counted. */
    ghost predicate Walking(j: nat)
      requires 1 <= base <= |blocks|
      reads this`current, this`blocks, this`base, blocks`failed
    {
      && CurrentAt(|blocks|, base) <= j < |blocks| && current == blocks[CurrentDuring(j, |blocks|, base)]
      && forall i :: 0 <= i < |blocks| ==>
           blocks[i].failed == if i < j then FailedAt(i, |blocks| + 1, base) else FailedAt(i, |blocks|, base)
    }

    /** One round of that walk. */
    method CountFailure(p: Block, ghost j: nat)
      requires 1 <= base <= |blocks| && Walking(j) && Chain(blocks) && p == blocks[j] && p.next != null
      modifies p`failed, this`current
      ensures Walking(j + 1) && j + 1 < |blocks| && p.next == blocks[j + 1]
    {
      hide Chain, FailedAt, CurrentAt, CurrentDuring;
      ChainNext(blocks, j);
      CountStep(j, |blocks|, base);
      p.failed := p.failed + 1;
      if p.failed - 1 > 4 {
        current := p.next;
      }
    }

    lemma WalkStarts()
      requires blocks != [] && 1 <= base <= |blocks| && Counts(blocks, base)
      requires current == blocks[CurrentAt(|blocks|, base)]
      ensures Walking(CurrentAt(|blocks|, base))
    {
      CountEnds(|blocks|, base);
    }

    lemma WalkEnds()
      requires blocks != [] && 1 <= base <= |blocks| && Walking(|blocks| - 1)
      ensures CurrentAt(|blocks| + 1, base) < |blocks| && current == blocks[CurrentAt(|blocks| + 1, base)]
      ensures forall i :: 0 <= i < |blocks| ==> blocks[i].failed == FailedAt(i, |blocks| + 1, base)
    {
      CountEnds(|blocks|, base);
    }

    /** The walk from the current block to the last one. */
    method WalkToLast() returns (p: Block)
      requires blocks != [] && 1 <= base <= |blocks| && Chain(blocks) && Counts(blocks, base)
      requires current == blocks[CurrentAt(|blocks|, base)]
      modifies this`current, blocks`failed
      ensures CurrentAt(|blocks| + 1, base) < |blocks|
      ensures p == blocks[|blocks| - 1] && current == blocks[CurrentAt(|blocks| + 1, base)]
      ensures forall i :: 0 <= i < |blocks| ==> blocks[i].failed == FailedAt(i, |blocks| + 1, base)
    {
      hide FailedAt, CurrentAt, CurrentDuring, Chain, Walking, Counts;
      ghost var j := CurrentAt(|blocks|, base);
      p := current;
      WalkStarts();
      while p.next != null
        invariant j < |blocks| && Walking(j) && Chain(blocks) && p == blocks[j]
        decreases |blocks| - j
      {
        CountFailure(p, j);
        p, j := p.next, j + 1;
      }
      ChainNext(blocks, j);
      WalkEnds();
    }

    /** The end of nc_palloc_block: the new block behind the last one. */
    method Link(p: Block, b: Block)
      requires blocks != [] && Chain(blocks) && p == blocks[|blocks| - 1] && b !in blocks && b.next == null
      modifies p`next, this`blocks
      ensures Chain(blocks) && blocks == old(blocks) + [b]
    {
      p.next := b;
      blocks := blocks + [b];
    }

    /** The second half of nc_palloc_block: count failures, link the new block. */
    method Attach(b: Block, ghost c: Chunk)
      requires Shape() && b !in blocks && b.failed == 0 && b.next == null
      requires Layout(blocks + [b], Size()) && Carved(blocks + [b], given + [c])
      modifies this`current, this`blocks, this`given, blocks`failed, blocks`next
      ensures Shape() && blocks == old(blocks) + [b] && given == old(given) + [c]
    {
      hide Layout, Carved, Chain, Counts, FailedAt, CurrentAt;
      ghost var bs := blocks + [b];
      assert forall i :: 0 <= i < |bs| ==> bs[i] in blocks || bs[i] == b;
      var p := WalkToLast();
      CountsPlus(blocks, base, b);
      given := given + [c];
      Link(p, b);
    }

    /** nc_palloc_block, with the address that nc_memalign returns. */
    method NewBlock(size: nat, at: nat) returns (m: nat)
      requires Shape() && Free(at) && BLOCK_HEADER + size <= Size()
      modifies this`current, this`blocks, this`given, blocks`failed, blocks`next
      ensures Shape() && |blocks| == |old(blocks)| + 1 && blocks[..|old(blocks)|] == old(blocks)
      ensures var b := blocks[|old(blocks)|];
              && fresh(b) && b.addr == at && b.end == at + Size() && given == old(given) + [Chunk(m, size, b)]
              && b.header == BLOCK_HEADER && b.last == m + size
      ensures m == at + BLOCK_HEADER && m % ALIGNMENT == 0
    {
      hide AlignPtr, Counts, FailedAt, CurrentAt, Layout, Carved, Chain;
      var psize := d.end - d.addr;
      m := at + BLOCK_HEADER;
      AlignedAlready(m);
      m := AlignPtr(m);
      var b := new Block(at, at + psize, BLOCK_HEADER, m + size);
      ghost var c := Chunk(m, size, b);
      WithBlock(blocks, psize, given, b, c);
      Attach(b, c);
    }

    /** The number of the block that searches start at. */
    ghost function Here(): nat
      reads this`blocks, this`current
    {
      IndexIn(blocks, current)
    }

    lemma HereIs()
      requires Shape()
      ensures Here() == CurrentAt(|blocks|, base) == (if |blocks| - base >= 6 then |blocks| - 7 else 0) < |blocks|
    {
      IndexIs(blocks, CurrentAt(|blocks|, base));
      hide IndexIn;
    }

    method Carve(p: Block, m: nat, size: nat, ghost k: nat)
      requires Shape() && k < |blocks| && p == blocks[k] && p.last <= m && m + size <= p.end
      modifies p`last, this`given
      ensures Shape() && given == old(given) + [Chunk(m, size, p)] && p.last == m + size
    {
      ghost var c := Chunk(m, size, p);
      CarveKeeps(blocks, Size(), given, k, c);
      assert LaidOut(blocks[k], Size());
      hide Chain, Counts, FailedAt, CurrentAt, Disjoint, Clear;
      p.last := m + size;
      assert Layout(blocks, Size()) && Carved(blocks, given);
      hide Layout;
      CarvedMore(blocks, given, c);
      given := given + [c];
    }

    /** The same, as requests see it. */
    method Fill(p: Block, m: nat, size: nat, ghost k: nat)
      requires Shape() && k < |blocks| && p == blocks[k] && p.last <= m && m + size <= p.end
      modifies p`last, this`given
      ensures Shape() && given == old(given) + [Chunk(m, size, p)]
      ensures Spots(blocks) == old(Spots(blocks))[k := old(Spots(blocks))[k].(last := m + size)]
    {
      ChainNext(blocks, k);
      hide Shape, Chain, Spots;
      ghost var was := Spots(blocks);
      Carve(p, m, size, k);
      assert Spots(blocks) == was[k := was[k].(last := m + size)];
    }

    /** What the room test finds out about block number i. */
    lemma RoomTest(i: nat, size: nat, align: bool)
      requires Shape() && i < |blocks| && (align ==> WordSized())
      ensures blocks[i].last <= AlignIf(blocks[i].last, align)
              && (align ==> AlignIf(blocks[i].last, align) % ALIGNMENT == 0)
      ensures HasRoom(blocks[i].last, blocks[i].end, size, align) <==> Room(blocks[i], size, align)
      ensures blocks[i].last > 0
      ensures blocks[i].next == if i + 1 < |blocks| then blocks[i + 1] else null
    {
      hide AlignPtr, HasRoom, Carved, Counts, Fits, Chain;
      if align { EndAligned(blocks[i], Size()); }
      ChainNext(blocks, i);
      RoomIsExact(blocks[i].last, blocks[i].end, size, align);
      AlignUp(blocks[i].last);
    }

    /** The search of nc_palloc_small: first fit from the current block on. */
    method Search(size: nat, align: bool) returns (p: Block?, m: nat, ghost k: nat, ghost seen: nat)
      requires Shape() && (align ==> WordSized())
      ensures CurrentAt(|blocks|, base) <= k <= |blocks| && p == if k < |blocks| then blocks[k] else null
      ensures forall i :: CurrentAt(|blocks|, base) <= i < k ==> !Room(blocks[i], size, align)
      ensures p != null ==> m == AlignIf(p.last, align) && Room(p, size, align)
      ensures p != null && align ==> m % ALIGNMENT == 0
      ensures seen == Min(k + 1, |blocks|) - CurrentAt(|blocks|, base)
    {
      hide AlignPtr, Carved, Counts, Fits, Layout, AlignIf, Chain;
      ghost var cur := CurrentAt(|blocks|, base);
      p, k, seen := current, cur, 0;
      while p != null
        invariant cur <= k <= |blocks| && p == (if k < |blocks| then blocks[k] else null) && seen == k - cur
        invariant forall i :: cur <= i < k ==> !Room(blocks[i], size, align)
        decreases |blocks| - k
      {
        RoomTest(k, size, align);
        m := AlignIf(p.last, align);
        if Left(p.end, m) >= size {
          seen := seen + 1;
          return;
        }
        p, k, seen := p.next, k + 1, seen + 1;
      }
      m := 0;
    }

    /** What a search has found out. */
    lemma Searched(k: nat, size: nat, align: bool)
      requires Shape() && CurrentAt(|blocks|, base) <= k <= |blocks|
      requires forall i :: CurrentAt(|blocks|, base) <= i < k ==> !Room(blocks[i], size, align)
      requires k < |blocks| ==> Room(blocks[k], size, align)
      ensures forall i :: CurrentAt(|blocks|, base) <= i < k ==> Tight(Spots(blocks)[i], size, align)
      ensures k < |blocks| ==> FirstPlace(Spots(blocks)[k], size, align, AlignIf(blocks[k].last, align))
    {
      forall i | CurrentAt(|blocks|, base) <= i < |blocks|
        ensures Tight(Spots(blocks)[i], size, align) <==> !Room(blocks[i], size, align)
        ensures Room(blocks[i], size, align) ==>
                  FirstPlace(Spots(blocks)[i], size, align, AlignIf(blocks[i].last, align))
      {
        assert LaidOut(blocks[i], Size());
        PlaceLaws(Spots(blocks)[i], size, align);
      }
      hide Shape, AlignIf, Tight, FirstPlace;
    }

    /** nc_palloc_small; at is what nc_memalign would return for a new block, took says whether
        it was asked. */
    method Small(size: nat, align: bool, at: nat) returns (m: nat, took: bool, ghost seen: nat)
      requires Shape() && (align ==> WordSized()) && (at == 0 || Free(at)) && BLOCK_HEADER + size <= Size()
      modifies this`current, this`blocks, this`given, blocks`last, blocks`failed, blocks`next
      ensures Shape() && (align ==> m % ALIGNMENT == 0) && (m == 0 <==> took && at == 0)
      ensures seen <= |old(blocks)| - CurrentAt(|old(blocks)|, base)
      ensures Carves(old(Spots(blocks)), CurrentAt(|old(blocks)|, base), Spots(blocks), Size(), size, align, at, m,
                     took)
      ensures if m == 0 then given == old(given) && current == old(current)
              else |given| == |old(given)| + 1 && given[..|old(given)|] == old(given)
                   && given[|old(given)|].at == m && given[|old(given)|].size == size
      ensures if took && at != 0
              then |blocks| == |old(blocks)| + 1 && blocks[..|old(blocks)|] == old(blocks)
                   && fresh(blocks[|old(blocks)|])
                   && blocks[|old(blocks)|].addr == at && blocks[|old(blocks)|].end == at + Size()
              else blocks == old(blocks) && current == old(current)
    {
      hide Shape, AlignPtr, HasRoom, Chain, Fits, Tight, FirstPlace, CurrentAt, Spots, Free, Room;
      ghost var was := Spots(blocks);
      var p;
      ghost var k;
      p, m, k, seen := Search(size, align);
      Searched(k, size, align);
      took := p == null;
      if p != null {
        RoomTest(k, size, align);
        FirstIsPlace(was[k], size, align, m);
        Fill(p, m, size, k);
      } else if at == 0 {
        m := 0;
      } else {
        m := NewBlock(size, at);
        assert Spots(blocks) == was + [Spot(at, BLOCK_HEADER, at + Size(), m + size)];
      }
    }

    /** The addresses the allocators return for a new block and, when that many bytes make it a
        large request, for those: NULL or memory that nobody holds. */
    ghost predicate Unused(at: nat, size: nat, mem: nat)
      reads this`blocks, this`slots, slots
    {
      && BlockFor(at, Extents(slots), blocks, Size())
      && (size > max ==> PieceFor(mem, size, at, Extents(slots), blocks, Size()))
    }

    /** The slots nc_palloc_large looks at: the first five. */
    method EmptySlot() returns (slot: Large?, ghost k: nat)
      requires Listed(slots, large)
      ensures slot == null <==> FiveFull(Extents(slots))
      ensures slot != null ==>
                && k < 5 && k < |slots| && slot == slots[k] && slot.alloc == 0
                && forall i :: 0 <= i < k ==> slots[i].alloc != 0
    {
      slot := large;
      var n := 0;
      while slot != null
        invariant n <= 4 && n <= |slots| && slot == SlotAt(slots, n)
        invariant forall j :: 0 <= j < n ==> slots[j].alloc != 0
        decreases |slots| - n
      {
        if slot.alloc == 0 {
          k := n;
          assert Extents(slots)[k].at == 0;
          return;
        }
        n := n + 1;
        if n - 1 > 3 {
          return null, 0;
        }
        slot := slot.next;
      }
      k := 0;
    }

    /** Write what slot number k holds. */
    method SetSlot(slot: Large, x: nat, ghost size: nat, ghost k: nat)
      requires Listed(slots, large) && k < |slots| && slot == slots[k]
      modifies slot`alloc, slot`size
      ensures Allocs(slots) == old(Allocs(slots))[k := x]
      ensures Extents(slots) == old(Extents(slots))[k := Extent(x, size)]
    {
      slot.alloc := x;
      slot.size := size;
    }

    /** The end of nc_palloc_large: a new slot in front of the list. */
    method PushSlot(m: nat, mem: nat, ghost size: nat)
      requires Listed(slots, large)
      modifies this`large, this`slots
      ensures Listed(slots, large) && slots != [] && slots == [slots[0]] + old(slots)
      ensures fresh(slots[0]) && slots[0].at == m && Allocs(slots) == [mem] + old(Allocs(slots))
      ensures Extents(slots) == [Extent(mem, size)] + old(Extents(slots))
      ensures forall i :: 0 <= i < |slots| ==> slots[i] in old(slots) || fresh(slots[i])
    {
      hide Listed, Allocs, Extents;
      var slot := new Large(m, mem, size, large);
      ListedPlus(slots, large, slot);
      HeldPlus(slots, slot);
      large := slot;
      slots := [slot] + slots;
    }

    /** nc_palloc_large with an empty slot. */
    method Reuse(slot: Large, mem: nat, ghost size: nat, ghost k: nat)
      requires Valid() && k < |slots| && slot == slots[k] && slot.alloc == 0
      requires size > 0 && Unheld(Extent(mem, size), Extents(slots), blocks)
      modifies slot`alloc, slot`size
      ensures Valid() && Allocs(slots) == old(Allocs(slots))[k := mem]
      ensures Extents(slots) == old(Extents(slots))[k := Extent(mem, size)]
    {
      hide Shape, Recorded, Separate, Unheld, Listed;
      SeparateAt(Extents(slots), blocks, k, Extent(mem, size));
      SetSlot(slot, mem, size, k);
    }

    lemma LargeLaws(at: nat, size: nat, mem: nat)
      requires Valid() && Unused(at, size, mem) && size > max && mem != 0
      ensures (at == 0 || Free(at)) && BLOCK_HEADER + RECORD <= Size()
      ensures var e := Extent(mem, size);
              && Unheld(e, Extents(slots), blocks) && Separate([e] + Extents(slots), blocks)
              && (at != 0 ==> forall i :: 0 <= i < |slots| + 1 && ([e] + Extents(slots))[i].at != 0 ==>
                                Away(Extent(at, Size()), ([e] + Extents(slots))[i]))
    {
      SeparateMore(Extents(slots), blocks, Extent(mem, size));
    }

    lemma SmallLaws(at: nat, size: nat, mem: nat)
      requires Valid() && Unused(at, size, mem) && size <= max
      ensures (at == 0 || Free(at)) && BLOCK_HEADER + size <= Size()
      ensures at != 0 ==> forall i :: 0 <= i < |slots| && Extents(slots)[i].at != 0 ==>
                            Away(Extent(at, Size()), Extents(slots)[i])
    {}

    /** The blocks are the old ones, or those and a new one at that address. */
    ghost predicate Grown(was: seq<Block>, at: nat)
      reads this`blocks
    {
      blocks == was ||
      (at != 0 && |blocks| == |was| + 1 && blocks[..|was|] == was
       && blocks[|was|].addr == at && blocks[|was|].end == at + Size())
    }

    lemma SearchLaws()
      requires Shape()
      ensures |blocks| - CurrentAt(|blocks|, base) <= if base <= 2 then 7 else base + 5
    {
      CountLaws(|blocks|, base);
      hide FailedAt;
    }

    /** Memory for a new slot. */
    method SlotMemory(at: nat, ghost size: nat, mem: nat)
      returns (m: nat, took: bool, ghost c: Chunk, ghost seen: nat)
      requires Valid() && WordSized() && Unused(at, size, mem) && size > max && mem != 0
      modifies this`current, this`blocks, this`given, blocks`last, blocks`failed, blocks`next
      ensures Shape() && Separate([Extent(mem, size)] + Extents(slots), blocks)
      ensures Carves(old(Spots(blocks)), old(Here()), Spots(blocks), Size(), RECORD, true, at, m, took)
      ensures m == 0 <==> took && at == 0
      ensures if m == 0 then current == old(current) && given == old(given)
              else given == old(given) + [c] && c.at == m && c.size == RECORD
      ensures Grown(old(blocks), at) && (!took || at == 0 ==> blocks == old(blocks))
      ensures forall i :: 0 <= i < |blocks| ==> blocks[i] in old(blocks) || fresh(blocks[i])
      ensures seen <= if base <= 2 then 7 else base + 5
    {
      hide Separate, Shape, Listed, Recorded, Unused, Free, Away, Carves, Spots;
      ghost var was := blocks;
      LargeLaws(at, size, mem);
      SearchLaws();
      HereIs();
      m, took, seen := Small(RECORD, true, at);
      c := if m == 0 then Chunk(0, 0, d) else given[|given| - 1];
      SeparateGrown([Extent(mem, size)] + Extents(slots), was, blocks, at, Size());
    }

    /** The last piece carved becomes a slot. */
    method Enter(m: nat, mem: nat, ghost size: nat, ghost were: seq<Chunk>, ghost c: Chunk)
      requires Shape() && Listed(slots, large) && gone == {}
      requires Separate([Extent(mem, size)] + Extents(slots), blocks)
      requires given == were + [c] && c.at == m && c.size == RECORD && Recorded(slots, were, records)
      modifies this`large, this`slots, this`records
      ensures Valid() && slots != [] && slots == [slots[0]] + old(slots) && slots[0].at == m
      ensures records == [|were|] + old(records)
      ensures Allocs(slots) == [mem] + old(Allocs(slots))
      ensures Extents(slots) == [Extent(mem, size)] + old(Extents(slots))
      ensures forall i :: 0 <= i < |slots| ==> slots[i] in old(slots) || fresh(slots[i])
    {
      hide Shape, Separate, Listed, Recorded;
      PushSlot(m, mem, size);
      RecordedPlus(old(slots), were, records, slots[0], c);
      records := [|were|] + records;
    }

    /** The end of nc_palloc_large, when no slot is empty. */
    method NewSlot(at: nat, ghost size: nat, mem: nat) returns (p: nat, took: bool, ghost rec: nat, ghost seen: nat)
      requires Valid() && WordSized() && Unused(at, size, mem) && size > max && mem != 0
      modifies this`current, this`blocks, this`given, this`large, this`slots, this`records, this`freed
      modifies blocks`last, blocks`failed, blocks`next
      ensures Valid() && p == (if rec == 0 then 0 else mem) && (rec == 0 <==> took && at == 0)
      ensures Carves(old(Spots(blocks)), old(Here()), Spots(blocks), Size(), RECORD, true, at, rec, took)
      ensures rec == 0 ==>
                && current == old(current) && given == old(given) && slots == old(slots) && records == old(records)
                && Extents(slots) == old(Extents(slots)) && freed == old(freed) + [mem]
      ensures rec != 0 ==>
                && slots != [] && slots == [slots[0]] + old(slots) && slots[0].at == rec && freed == old(freed)
                && Extents(slots) == [Extent(mem, size)] + old(Extents(slots))
                && |given| == |old(given)| + 1 && old(given) <= given && records == [|old(given)|] + old(records)
      ensures forall i :: 0 <= i < |slots| ==> slots[i] in old(slots) || fresh(slots[i])
      ensures Grown(old(blocks), at) && (!took || at == 0 ==> blocks == old(blocks))
      ensures forall i :: 0 <= i < |blocks| ==> blocks[i] in old(blocks) || fresh(blocks[i])
      ensures seen <= if base <= 2 then 7 else base + 5
    {
      hide Separate, Shape, Listed, Recorded, Unused, Grown, Held, Carves, Spots, Extents, Allocs, Here, Away;
      ghost var c, were := Chunk(0, 0, d), given;
      var m;
      m, took, c, seen := SlotMemory(at, size, mem);
      rec := m;
      if m == 0 {
        Release(mem);
        return 0, took, rec, seen;
      }
      Enter(m, mem, size, were, c);
      p := mem;
    }

    /** nc_palloc_large once it has the piece of memory. */
    method HoldLarge(size: nat, at: nat, mem: nat) returns (p: nat, took: bool, ghost rec: nat, ghost seen: nat)
      requires Valid() && WordSized() && Unused(at, size, mem) && size > max && mem != 0
      modifies this`current, this`blocks, this`given, this`large, this`slots, this`records, this`freed
      modifies blocks`last, blocks`failed, blocks`next, slots`alloc, slots`size
      ensures Valid() && seen <= if base <= 2 then 7 else base + 5
      ensures LargeDone(old(Spots(blocks)), old(Extents(slots)), old(Here()), Spots(blocks), Extents(slots),
                             Size(), size, at, mem, p, took, rec)
      ensures freed == if p == 0 then old(freed) + [mem] else old(freed)
      ensures if |slots| == |old(slots)|
              then slots == old(slots) && given == old(given) && records == old(records) && current == old(current)
              else slots != [] && slots == [slots[0]] + old(slots) && slots[0].at == rec && |given| == |old(given)| + 1
                   && old(given) <= given && records == [|old(given)|] + old(records)
      ensures Grown(old(blocks), at) && (!took || at == 0 ==> blocks == old(blocks))
      ensures forall i :: 0 <= i < |blocks| ==> blocks[i] in old(blocks) || fresh(blocks[i])
      ensures forall i :: 0 <= i < |slots| ==> slots[i] in old(slots) || fresh(slots[i])
    {
      hide Separate, Shape, Recorded, Free, Listed, Grown, Unused, Unheld, Held, Carves, Spots, Extents, Allocs;
      hide FiveFull;
      NotGrown(at);
      LargeLaws(at, size, mem);
      var slot;
      ghost var k;
      slot, k := EmptySlot();
      if slot != null {
        Reuse(slot, mem, size, k);
        return mem, false, 0, 0;
      }
      p, took, rec, seen := NewSlot(at, size, mem);
    }

    /** nc_palloc_large, with the addresses that nc_memalign and nc_alloc return. When there is
        no memory for a slot, the piece is given back. */
    method AllocLarge(size: nat, at: nat, mem: nat) returns (p: nat, took: bool, ghost rec: nat, ghost seen: nat)
      requires Valid() && WordSized() && Unused(at, size, mem) && size > max
      modifies this`current, this`blocks, this`given, this`large, this`slots, this`records, this`freed
      modifies blocks`last, blocks`failed, blocks`next, slots`alloc, slots`size
      ensures Valid() && seen <= if base <= 2 then 7 else base + 5
      ensures if mem == 0
              then p == 0 && !took && Spots(blocks) == old(Spots(blocks)) && Extents(slots) == old(Extents(slots))
              else LargeDone(old(Spots(blocks)), old(Extents(slots)), old(Here()), Spots(blocks), Extents(slots),
                             Size(), size, at, mem, p, took, rec)
      ensures freed == if p == 0 && mem != 0 then old(freed) + [mem] else old(freed)
      ensures if |slots| == |old(slots)|
              then slots == old(slots) && given == old(given) && records == old(records) && current == old(current)
              else slots != [] && slots == [slots[0]] + old(slots) && slots[0].at == rec && |given| == |old(given)| + 1
                   && old(given) <= given && records == [|old(given)|] + old(records)
      ensures Grown(old(blocks), at) && (!took || at == 0 ==> blocks == old(blocks))
      ensures forall i :: 0 <= i < |blocks| ==> blocks[i] in old(blocks) || fresh(blocks[i])
      ensures forall i :: 0 <= i < |slots| ==> slots[i] in old(slots) || fresh(slots[i])
    {
      hide Shape, Listed, Separate, Recorded, Unused, LargeDone, Spots, Extents, Grown;
      if mem == 0 {
        NotGrown(at);
        return 0, false, 0, 0;
      }
      p, took, rec, seen := HoldLarge(size, at, mem);
    }

    lemma NotGrown(at: nat)
      ensures Grown(blocks, at)
    {}

    /** A small piece of memory for the user. */
    method AllocSmall(size: nat, align: bool, at: nat, ghost mem: nat) returns (p: nat, took: bool, ghost seen: nat)
      requires Valid() && (align ==> WordSized()) && Unused(at, size, mem) && size <= max
      modifies this`current, this`blocks, this`given, blocks`last, blocks`failed, blocks`next
      ensures Valid() && (align ==> p % ALIGNMENT == 0) && |old(given)| !in records
      ensures seen <= if base <= 2 then 7 else base + 5
      ensures Carves(old(Spots(blocks)), old(Here()), Spots(blocks), Size(), size, align, at, p, took)
      ensures p == 0 <==> took && at == 0
      ensures if p == 0 then given == old(given) && current == old(current)
              else |given| == |old(given)| + 1 && given[..|old(given)|] == old(given)
                   && given[|old(given)|].at == p && given[|old(given)|].size == size
      ensures Grown(old(blocks), at) && (!took || at == 0 ==> blocks == old(blocks))
      ensures forall i :: 0 <= i < |blocks| ==> blocks[i] in old(blocks) || fresh(blocks[i])
    {
      hide Separate, Shape, Listed, Recorded, Unused, Free, Away, Carves, Spots;
      ghost var was := blocks;
      SmallLaws(at, size, mem);
      SearchLaws();
      HereIs();
      p, took, seen := Small(size, align, at);
      SeparateGrown(Extents(slots), was, blocks, at, Size());
      RecordedStill(slots, old(given), records, given);
    }

    /** nc_palloc (align) and nc_pnalloc (not); NULL is 0. Few blocks are looked at: at most
        seven if the pool was never reset, or five more than there were at the last reset. A
        pool whose blocks end off a word boundary is good for unaligned small pieces only, see
        OddPool. */
    method Alloc(size: nat, align: bool, at: nat, mem: nat)
      returns (p: nat, took: bool, ghost rec: nat, ghost seen: nat)
      requires Valid() && Unused(at, size, mem) && (WordSized() || (!align && size <= max))
      modifies this`current, this`blocks, this`given, this`large, this`slots, this`records, this`freed
      modifies blocks`last, blocks`failed, blocks`next, slots`alloc, slots`size
      ensures Valid() && seen <= if base <= 2 then 7 else base + 5
      ensures Here() == if |blocks| - base >= 6 then |blocks| - 7 else 0
      // a small request: the first place from the current block on, or a new block
      ensures size <= max ==>
                && (took <==>
                      forall i :: old(Here()) <= i < |old(blocks)| ==> Tight(old(Spots(blocks))[i], size, align))
                && Carves(old(Spots(blocks)), old(Here()), Spots(blocks), Size(), size, align, at, p, took)
      ensures size <= max && !took ==>
                exists k :: old(Here()) <= k < |old(blocks)| && FirstPlace(old(Spots(blocks))[k], size, align, p)
                            && forall i :: old(Here()) <= i < k ==> Tight(old(Spots(blocks))[i], size, align)
      ensures size <= max ==>
                && (align ==> p % ALIGNMENT == 0) && (p == 0 <==> took && at == 0) && |old(given)| !in records
                && slots == old(slots) && Extents(slots) == old(Extents(slots)) && records == old(records)
                && freed == old(freed)
                && if p == 0 then given == old(given) && current == old(current)
                   else |given| == |old(given)| + 1 && given[..|old(given)|] == old(given)
                        && given[|old(given)|].at == p && given[|old(given)|].size == size
      // a large one
      ensures size > max ==>
                if mem == 0
                then p == 0 && !took && Spots(blocks) == old(Spots(blocks)) && Extents(slots) == old(Extents(slots))
                else LargeDone(old(Spots(blocks)), old(Extents(slots)), old(Here()), Spots(blocks), Extents(slots),
                             Size(), size, at, mem, p, took, rec)
      ensures size > max ==>
                && freed == (if p == 0 && mem != 0 then old(freed) + [mem] else old(freed))
                && if |slots| == |old(slots)|
                   then slots == old(slots) && given == old(given) && records == old(records) && current == old(current)
                   else slots != [] && slots == [slots[0]] + old(slots) && slots[0].at == rec
                        && |given| == |old(given)| + 1 && old(given) <= given
                        && records == [|old(given)|] + old(records)
      ensures Grown(old(blocks), at) && (!took || at == 0 ==> blocks == old(blocks))
      ensures forall i :: 0 <= i < |blocks| ==> blocks[i] in old(blocks) || fresh(blocks[i])
      ensures forall i :: 0 <= i < |slots| ==> slots[i] in old(slots) || fresh(slots[i])
    {
      hide Shape, Listed, Separate, Recorded, Unused, LargeDone, Spots, Extents, Grown, Tight, Here;
      if size <= max {
        p, took, seen := AllocSmall(size, align, at, mem);
        rec := 0;
      } else {
        p, took, rec, seen := AllocLarge(size, at, mem);
      }
      HereIs();
    }

    /** nc_free */
    method Release(p: nat)
      modifies this`freed
      ensures freed == old(freed) + Held([p]) && (p != 0 ==> freed == old(freed) + [p])
    {
      if p != 0 {
        freed := freed + [p];
      }
    }

    /** The slot that holds p. */
    method FindSlot(p: nat) returns (slot: Large?, ghost k: nat)
      requires Listed(slots, large)
      ensures k == FirstOf(Allocs(slots), p) && slot == SlotAt(slots, k)
    {
      slot := large;
      k := 0;
      while slot != null
        invariant k <= |slots| && slot == SlotAt(slots, k)
        invariant forall j :: 0 <= j < k ==> Allocs(slots)[j] != p
        decreases |slots| - k
      {
        if p == slot.alloc {
          break;
        }
        slot, k := slot.next, k + 1;
      }
      FirstIs(Allocs(slots), p, k);
    }

    method EmptyOut(slot: Large, ghost k: nat)
      requires Valid() && k < |slots| && slot == slots[k]
      modifies slot`alloc, slot`size
      ensures Valid() && Allocs(slots) == old(Allocs(slots))[k := 0]
    {
      hide Shape, Recorded, Separate, Listed;
      SeparateLess(Extents(slots), blocks, k);
      SetSlot(slot, 0, slot.size, k);
    }

    /** nc_pfree: 0 and an empty slot where p was, or -1. */
    method PFree(p: nat) returns (r: int)
      requires Valid()
      modifies slots`alloc, slots`size, this`freed
      ensures Valid() && (r == 0 <==> p in old(Allocs(slots))) && (r == 0 || r == -1)
      ensures r == 0 ==> freed == old(freed) + Held([p])
                         && Allocs(slots) == old(Allocs(slots))[FirstOf(old(Allocs(slots)), p) := 0]
      ensures r == -1 ==> freed == old(freed) && Allocs(slots) == old(Allocs(slots))
    {
      hide Shape, Listed, Separate, Recorded, Held;
      var slot;
      ghost var k;
      slot, k := FindSlot(p);
      if slot == null {
        return -1;
      }
      Release(p);
      EmptyOut(slot, k);
      return 0;
    }

    /** nc_free is a macro that frees and then writes NULL where its argument stands, so the slot
        is empty afterwards. It is read and written where it was carved: that block must not be
        freed yet. */
    method FreeOne(slot: Large, ghost k: nat) returns (next: Large?)
      requires Listed(slots, large) && k < |slots| && slot == slots[k]
      requires Recorded(slots, given, records) && given[records[k]].block !in gone
      modifies slot`alloc, slot`size, this`freed
      ensures next == SlotAt(slots, k + 1) && freed == old(freed) + Held([old(slot.alloc)])
      ensures Allocs(slots) == old(Allocs(slots))[k := 0]
    {
      Release(slot.alloc);
      SetSlot(slot, 0, slot.size, k);
      next := slot.next;
    }

    /** The loop that reset and destroy begin with, while all blocks are there. */
    method FreeLarge()
      requires Listed(slots, large) && Recorded(slots, given, records) && gone == {}
      modifies slots`alloc, slots`size, this`freed
      ensures freed == old(freed) + Held(old(Allocs(slots))) && Wiped(Allocs(slots), old(Allocs(slots)), |slots|)
    {
      ghost var k, was := 0, Allocs(slots);
      var slot := large;
      assert slot == SlotAt(slots, 0) && Held(was[..0]) == [];
      hide Listed, Held, Wiped;
      assert Wiped(was, was, 0) by { WipeNone(was); }
      while slot != null
        invariant k <= |slots| == |was| && slot == SlotAt(slots, k) && Wiped(Allocs(slots), was, k)
        invariant freed == old(freed) + Held(was[..k])
        decreases |slots| - k
      {
        HeldAfter(old(freed), was, k);
        WipeStep(Allocs(slots), was, k);
        slot := FreeOne(slot, k);
        k := k + 1;
      }
      assert was[..k] == was;
    }

    method RewindOne(p: Block, ghost k: nat) returns (next: Block?)
      requires Chain(blocks) && Layout(blocks, Size()) && Rewound(blocks, k) && k < |blocks| && p == blocks[k]
      requires Size() >= POOL_HEADER
      modifies p`last, p`failed
      ensures Layout(blocks, Size()) && Rewound(blocks, k + 1)
      ensures next == if k + 1 < |blocks| then blocks[k + 1] else null
    {
      ChainNext(blocks, k);
      assert LaidOut(blocks[k], Size());
      hide Chain;
      p.last := p.addr + POOL_HEADER;
      p.failed := 0;
      next := p.next;
    }

    /** The second loop of nc_pool_reset. */
    method Rewind()
      requires Shape()
      modifies blocks`last, blocks`failed
      ensures Sized() && Chain(blocks) && Layout(blocks, Size()) && Rewound(blocks, |blocks|)
    {
      hide Layout, Rewound, Chain, Counts, Carved;
      assert Rewound(blocks, 0) by { NoneRewound(); }
      var p: Block? := d;
      ghost var k := 0;
      while p != null
        invariant Chain(blocks) && Layout(blocks, Size()) && Rewound(blocks, k)
        invariant k <= |blocks| && p == if k < |blocks| then blocks[k] else null
        decreases |blocks| - k
      {
        p := RewindOne(p, k);
        k := k + 1;
      }
    }

    lemma NoneRewound()
      ensures Rewound(blocks, 0)
    {}

    /** The end of nc_pool_reset. */
    method StartOver()
      requires Sized() && gone == {} && Chain(blocks) && Layout(blocks, Size()) && Rewound(blocks, |blocks|)
      modifies this`current, this`large, this`slots, this`given, this`records, this`base
      ensures Valid() && given == [] && slots == [] && base == |blocks| && current == d && Rewound(blocks, |blocks|)
    {
      hide Layout, Rewound, Chain, Counts, Carved, Listed, Separate, Recorded, CurrentAt, Extents, Allocs;
      RewoundLayout(blocks, Size());
      NoSlots(blocks);
      current := d;
      given, base := [], |blocks|;
      assert Shape();
      large := null;
      slots, records := [], [];
    }

    /** nc_pool_reset of a pool without cleanup handlers. */
    method Reset()
      requires Valid()
      modifies this`current, this`large, this`slots, this`given, this`records, this`base, this`freed
      modifies blocks`last, blocks`failed, slots`alloc, slots`size
      ensures Valid() && given == [] && slots == [] && blocks == old(blocks) && base == |blocks|
      ensures freed == old(freed) + Held(old(Allocs(slots)))
      ensures current == d && |blocks| > 0 && d == blocks[0] && Size() >= POOL_HEADER
      ensures forall i :: 0 <= i < |blocks| ==> blocks[i].last == blocks[i].addr + 64 && blocks[i].failed == 0
      ensures forall i :: 0 <= i < |blocks| ==>
                FirstPlace(Spots(blocks)[i], Size() - POOL_HEADER, true, blocks[i].addr + POOL_HEADER)
    {
      hide FirstPlace, Shape, Sized, Layout, Rewound, Chain, Held, Listed, Separate, Recorded, Wiped;
      FreeLarge();
      Rewind();
      StartOver();
      AllEmpty();
    }

    /** What that is good for: every block is empty and has a place, behind a header, for all that
        is left of it. */
    lemma AllEmpty()
      requires Shape() && Rewound(blocks, |blocks|)
      ensures |blocks| > 0 && d == blocks[0] && Size() >= POOL_HEADER
      ensures forall i :: 0 <= i < |blocks| ==> blocks[i].last == blocks[i].addr + 64 && blocks[i].failed == 0
      ensures forall i :: 0 <= i < |blocks| ==>
                FirstPlace(Spots(blocks)[i], Size() - POOL_HEADER, true, blocks[i].addr + POOL_HEADER)
    {
      forall i | 0 <= i < |blocks|
        ensures FirstPlace(Spots(blocks)[i], Size() - POOL_HEADER, true, blocks[i].addr + POOL_HEADER)
      {
        assert LaidOut(blocks[i], Size());
        EmptyPlace(Spots(blocks)[i], Size());
      }
      hide Chain, Layout, Carved, Counts, FirstPlace, CurrentAt;
    }

    /** The link of a block that is still there. */
    method NextOf(p: Block) returns (n: Block?)
      requires p !in gone
      ensures n == p.next
    {
      n := p.next;
    }

    /** nc_free of a block, which must not be freed before. */
    method FreeBlock(p: Block)
      requires p !in gone && p.addr != 0
      modifies this`freed, this`gone
      ensures freed == old(freed) + [p.addr] && gone == old(gone) + {p}
    {
      Release(p.addr);
      gone := gone + {p};
    }

    /** A round of the last loop of nc_pool_destroy: p is freed, then the link of the block
        after it is read, which is still there. */
    method FreeRound(p: Block, n: Block?, ghost i: nat) returns (n': Block?)
      requires Chain(blocks) && i < |blocks| && p == blocks[i] && n == BlockAt(blocks, i + 1)
      requires gone == Firsts(blocks, i) && Addressed(blocks)
      modifies this`freed, this`gone
      ensures gone == Firsts(blocks, i + 1) && freed == old(freed) + [p.addr] && n' == BlockAt(blocks, i + 2)
    {
      FirstsNext(blocks, i);
      assert p.addr != 0;
      FreeBlock(p);
      n' := null;
      if n != null {
        FirstsNext(blocks, i + 1);
        NextIs(blocks, i + 1);
        hide Chain, Firsts;
        n' := NextOf(n);
      }
    }

    /** The last loop of nc_pool_destroy: every block is freed once. */
    method FreeBlocks()
      requires Shape() && gone == {}
      modifies this`freed, this`gone
      ensures freed == old(freed) + Addrs(blocks) && gone == Firsts(blocks, |blocks|)
    {
      hide Shape, Chain, Firsts, Addrs, Addressed;
      StartsAt();
      ghost var i := 0;
      var p := d;
      var n := NextOf(d);
      while true
        invariant i < |blocks| && p == blocks[i] && n == BlockAt(blocks, i + 1) && gone == Firsts(blocks, i)
        invariant Chain(blocks) && freed == old(freed) + Addrs(blocks[..i])
        decreases |blocks| - i
      {
        AddrsNext(old(freed), blocks, i);
        var n' := FreeRound(p, n, i);
        i := i + 1;
        if n == null {
          break;
        }
        p, n := n, n';
      }
      assert blocks[..i] == blocks;
    }

    lemma StartsAt()
      requires Shape()
      ensures |blocks| > 0 && d == blocks[0] && Chain(blocks) && Firsts(blocks, 0) == {} && Addrs(blocks[..0]) == []
      ensures d.next == BlockAt(blocks, 1) && Addressed(blocks)
    {
      NextIs(blocks, 0);
      assert forall j :: 0 <= j < |blocks| ==> LaidOut(blocks[j], Size());
    }

    /** nc_pool_destroy of a pool without cleanup handlers. */
    method Destroy()
      requires Valid()
      modifies slots`alloc, slots`size, this`freed, this`gone
      ensures freed == old(freed) + Held(old(Allocs(slots))) + Addrs(blocks)
      ensures forall b :: b in gone <==> b in blocks
    {
      hide Shape, Held, Listed, Separate, Recorded, Wiped, Firsts;
      FreeLarge();
      FreeBlocks();
      FirstsAre(blocks, |blocks|);
      assert blocks[..|blocks|] == blocks;
    }

    /** What has been handed out since the last reset: every piece lies between the header and
        the end of one block, no two overlap and none touches a block header. */
    lemma PiecesApart()
      requires Valid()
      ensures forall i, j :: 0 <= i < j < |given| ==> Disjoint(given[i], given[j])
      ensures forall i :: 0 <= i < |given| ==> given[i].block in blocks && Inside(given[i], blocks)
      ensures forall i :: 0 <= i < |given| ==> given[i].block.last <= given[i].block.end == given[i].block.addr + Size()
      ensures forall i, k :: 0 <= i < |given| && 0 <= k < |blocks| ==>
                given[i].at + given[i].size <= blocks[k].addr || blocks[k].addr + blocks[k].header <= given[i].at
    {
      forall i, k | 0 <= i < |given| && 0 <= k < |blocks|
        ensures given[i].at + given[i].size <= blocks[k].addr || blocks[k].addr + blocks[k].header <= given[i].at
        ensures given[i].block.last <= given[i].block.end == given[i].block.addr + Size()
      {
        ClearOfHeaders(blocks, Size(), given, i, k);
      }
      forall i | 0 <= i < |given| ensures given[i].block.last <= given[i].block.end == given[i].block.addr + Size() {
        ClearOfHeaders(blocks, Size(), given, i, 0);
      }
      hide Layout, Counts, Chain, Listed, Separate, Inside, Disjoint, Recorded;
    }

    /** The records of slots are among those pieces, each slot has its own, and a piece that is
        not a record touches none. */
    lemma RecordsApart()
      requires Valid()
      ensures forall k :: 0 <= k < |slots| ==> IsRecord(slots[k], given, records[k])
      ensures forall k, l :: 0 <= k < l < |slots| ==> Clears(slots[k].at, RECORD, slots[l])
      ensures forall i, k :: 0 <= i < |given| && i !in records && 0 <= k < |slots| ==>
                Clears(given[i].at, given[i].size, slots[k])
    {
      hide Layout, Counts, Chain, Listed, Separate;
      forall k | 0 <= k < |slots| ensures IsRecord(slots[k], given, records[k]) {}
      forall k, l | 0 <= k < l < |slots| ensures Clears(slots[k].at, RECORD, slots[l]) {
        EitherOrder(given, records[k], records[l]);
      }
      forall i, k | 0 <= i < |given| && i !in records && 0 <= k < |slots|
        ensures Clears(given[i].at, given[i].size, slots[k])
      {
        EitherOrder(given, i, records[k]);
      }
    }

    /** The failure counts of every reachable pool. A search starts at current, so it looks at
        seven blocks at most, or at five more than there were at the last reset. */
    lemma FailureLaws()
      requires Shape()
      ensures var cur := CurrentAt(|blocks|, base);
              && current == blocks[cur]
              && (forall i :: 0 <= i < cur ==> blocks[i].failed == 6)
              && (forall i :: cur <= i < |blocks| ==> blocks[i].failed <= 5)
              && (forall i, j :: cur <= i <= j < |blocks| ==> blocks[i].failed >= blocks[j].failed)
              && (base <= 2 ==> |blocks| - cur <= 7) && (base > 2 ==> |blocks| - cur <= base + 5)
    {
      CountLaws(|blocks|, base);
      hide FailedAt, CurrentAt;
    }

    /** What destroy frees are different pieces of memory: everything that is held in a slot
        and all blocks. */
    lemma FreedOnce()
      requires Valid()
      ensures var r := Held(Allocs(slots)) + Addrs(blocks);
              forall i, j :: 0 <= i < j < |r| ==> r[i] != r[j]
      ensures forall x :: x in Held(Allocs(slots)) <==> x != 0 && x in Allocs(slots)
    {
      HeldAre(Allocs(slots));
      BlocksApart(slots, blocks, Size());
      HeldOnce(Allocs(slots));
      hide *;
      var h := Held(Allocs(slots));
      assert forall i :: 0 <= i < |h| ==> h[i] in h;
    }
  }

  /** The bytes from at on do not overlap with the record of slot l. */
  ghost predicate Clears(at: nat, size: nat, l: Large) {
    at + size <= l.at || l.at + RECORD <= at
  }

  lemma EitherOrder(given: seq<Chunk>, i: nat, j: nat)
    requires i < |given| && j < |given| && i != j
    requires forall k, l :: 0 <= k < l < |given| ==> Disjoint(given[k], given[l])
    ensures Disjoint(given[i], given[j])
  {
    assert i < j ==> Disjoint(given[i], given[j]);
    assert j < i ==> Disjoint(given[j], given[i]);
  }

  /** A chunk touches no block header, be it of its own block or of another. */
  lemma ClearOfHeaders(bs: seq<Block>, psize: nat, given: seq<Chunk>, i: nat, k: nat)
    requires Layout(bs, psize) && Carved(bs, given) && i < |given| && k < |bs|
    ensures given[i].at + given[i].size <= bs[k].addr || bs[k].addr + bs[k].header <= given[i].at
    ensures given[i].block.last <= given[i].block.end == given[i].block.addr + psize
  {
    assert Inside(given[i], bs);
    var j :| 0 <= j < |bs| && bs[j] == given[i].block;
    assert LaidOut(bs[j], psize) && LaidOut(bs[k], psize);
    if j < k {
      assert Clear(bs[j].addr, bs[j].end, bs[k]);
    } else if k < j {
      assert Clear(bs[k].addr, bs[k].end, bs[j]);
    }
  }

  lemma BlocksApart(ls: seq<Large>, bs: seq<Block>, psize: nat)
    requires Layout(bs, psize) && Separate(Extents(ls), bs) && psize > 0
    ensures forall i, j :: 0 <= i < j < |ls| && Allocs(ls)[i] != 0 ==> Allocs(ls)[i] != Allocs(ls)[j]
    ensures forall j :: 0 <= j < |bs| ==> Addrs(bs)[j] !in Held(Allocs(ls))
    ensures forall i, j :: 0 <= i < j < |bs| ==> Addrs(bs)[i] != Addrs(bs)[j]
  {
    HeldAre(Allocs(ls));
    var es := Extents(ls);
    assert forall i :: 0 <= i < |ls| ==> es[i].at == Allocs(ls)[i];
    hide Held, Allocs, Extents;
    forall i, j | 0 <= i < j < |ls| && Allocs(ls)[i] != 0 ensures Allocs(ls)[i] != Allocs(ls)[j] {
      assert es[j].at != 0 ==> Away(es[i], es[j]);
    }
    forall j, k | 0 <= j < |bs| && 0 <= k < |ls| && es[k].at != 0 ensures bs[j].addr != es[k].at {
      assert LaidOut(bs[j], psize) && Outside(es[k], bs[j]);
    }
    forall i, j | 0 <= i < j < |bs| ensures bs[i].addr != bs[j].addr {
      assert LaidOut(bs[i], psize) && LaidOut(bs[j], psize) && Clear(bs[i].addr, bs[i].end, bs[j]);
    }
  }
}
