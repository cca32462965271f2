/** The arithmetic of src/nc_palloc.c: addresses as numbers, pointer alignment, the test for
    room in a block, and the failure counts that decide where a search starts. */
module PoolMath {
  import opened Words

  // sizes on a 64-bit platform
  const POOL_HEADER: nat := 64  // struct nc_pool
  const BLOCK_HEADER: nat := 32  // struct nc_pool_data
  const RECORD: nat := 16  // struct nc_pool_large
  const ALIGNMENT: nat := 8
  const POOL_ALIGNMENT: nat := 16
  const MAX_SMALL: nat := 4095

  // ---- alignment and room

  /** NC_ALIGN_PTR for the word size. */
  function AlignPtr(p: nat): nat {
    BitAnd((p + (ALIGNMENT - 1)) % WORD, WORD - ALIGNMENT)
  }

  /** (size_t)(end - m), which wraps around when m is beyond end. */
  function Left(end: nat, m: nat): nat {
    (end - m) % WORD
  }

  /** Pointers are rounded up to the next word. */
  lemma AlignUp(p: nat)
    requires p + ALIGNMENT <= WORD
    ensures p <= AlignPtr(p) < p + ALIGNMENT && AlignPtr(p) % ALIGNMENT == 0
  {
    hide BitAnd;
    DropLow(p + 7, Pow2(61) - 1);
    WordIsEight();
    MaskIsMod((p + 7) / 8, 61);
    RemIs((p + 7) / 8, Pow2(61), 0, (p + 7) / 8);
  }

  lemma WordIsEight()
    ensures WORD == 8 * Pow2(61)
  {
    WordIsPow();
    assert Pow2(64) == 2 * Pow2(63) == 4 * Pow2(62);
  }

  /** Masking off the low three bits. */
  lemma DropLow(q: nat, y: nat)
    ensures BitAnd(q, 8 * y) == 8 * BitAnd(q / 8, y)
  {
    Low(q, 4 * y);
    Low(q / 2, 2 * y);
    Low(q / 4, y);
    hide BitAnd;
    assert q / 2 / 2 == q / 4 && q / 4 / 2 == q / 8;
  }

  lemma Low(x: nat, y: nat)
    ensures BitAnd(x, 2 * y) == 2 * BitAnd(x / 2, y)
  {
    if x == 0 || y == 0 {
    } else {
      assert 2 * y / 2 == y && 2 * y % 2 == 0;
      hide BitAnd;
    }
  }

  lemma AlignedAlready(p: nat)
    requires p + ALIGNMENT <= WORD && p % ALIGNMENT == 0
    ensures AlignPtr(p) == p
  {
    AlignUp(p);
    hide AlignPtr;
  }

  function AlignIf(p: nat, align: bool): nat {
    if align then AlignPtr(p) else p
  }

  /** The room test of nc_palloc_small for a block that is used up to last. */
  predicate HasRoom(last: nat, end: nat, size: nat, align: bool) {
    Left(end, AlignIf(last, align)) >= size
  }

  /** What it is meant to say. */
  ghost predicate Fits(last: nat, end: nat, size: nat, align: bool) {
    AlignIf(last, align) + size <= end
  }

  lemma RoomIsExact(last: nat, end: nat, size: nat, align: bool)
    requires last <= end && (align ==> end % ALIGNMENT == 0) && end + ALIGNMENT <= WORD
    ensures AlignIf(last, align) <= end
    ensures HasRoom(last, end, size, align) <==> Fits(last, end, size, align)
  {
    hide BitAnd, AlignPtr, Left;
    if align {
      AlignUp(last);
      NotBeyond(AlignPtr(last), end);
    }
    LeftIs(end, AlignIf(last, align));
  }

  lemma NotBeyond(p: nat, q: nat)
    requires p % ALIGNMENT == 0 && q % ALIGNMENT == 0 && p < q + ALIGNMENT
    ensures p <= q
  {
    assert p == ALIGNMENT * (p / ALIGNMENT) && q == ALIGNMENT * (q / ALIGNMENT);
  }

  lemma LeftIs(end: nat, m: nat)
    requires m <= end < WORD
    ensures Left(end, m) == end - m
  {}

  /** The wrapping test can be trusted exactly when blocks end on a word boundary: beyond an
      odd end, aligning can step over it, and then there seems to be room for anything. */
  lemma RoomCanBeTrusted(end: nat)
    requires end + ALIGNMENT <= WORD
    ensures end % ALIGNMENT == 0 <==>
            forall last: nat, size: nat :: last <= end && HasRoom(last, end, size, true) ==> Fits(last, end, size, true)
  {
    if end % ALIGNMENT == 0 {
      forall last: nat, size: nat | last <= end && HasRoom(last, end, size, true) ensures Fits(last, end, size, true) {
        RoomIsExact(last, end, size, true);
      }
    } else {
      AlignUp(end);
      var m := AlignPtr(end);
      hide BitAnd, AlignPtr;
      assert Left(end, m) == WORD + end - m;
      assert HasRoom(end, end, 1, true) && !Fits(end, end, 1, true);
    }
  }

  // ---- failure counts

  function Min(a: nat, b: nat): nat { if a < b then a else b }

  /** The failure count of block number i when there are n blocks, base of which were there
      at the last reset: a block counts the new blocks that came when it was not the last
      one, up to six. */
  ghost function FailedAt(i: nat, n: nat, base: nat): nat
    requires base <= n
  {
    Min(6, Min(n - base, if i + 2 <= n then n - 2 - i else 0))
  }

  /** The block a search starts at. */
  ghost function CurrentAt(n: nat, base: nat): (cur: nat)
    requires 1 <= base <= n
    ensures cur < n
  {
    if n - base >= 6 then n - 7 else 0
  }

  /** All there is to know about the counts, over all runs: they do not rise from the
      current block on, blocks before it have failed six times and the others at most five
      times, the last one never, and a search sees seven blocks, or those that were there at
      the last reset and five more. */
  lemma CountLaws(n: nat, base: nat)
    requires 1 <= base <= n
    ensures var cur := CurrentAt(n, base);
            && cur < n && FailedAt(n - 1, n, base) == 0
            && (forall i: nat :: i < cur ==> FailedAt(i, n, base) == 6)
            && (forall i: nat :: cur <= i < n ==> FailedAt(i, n, base) <= 5)
            && (forall i: nat, j: nat :: cur <= i <= j < n ==> FailedAt(i, n, base) >= FailedAt(j, n, base))
            && n - cur <= if base + 5 > 7 then base + 5 else 7
  {}

  /** Where current is when the walk of nc_palloc_block has come to block number j. */
  ghost function CurrentDuring(j: nat, n: nat, base: nat): (cur: nat)
    requires 1 <= base <= n
    ensures cur <= j
  {
    if n - base >= 5 then Min(j, n - 6) else 0
  }

  lemma CountStep(j: nat, n: nat, base: nat)
    requires 1 <= base <= n && CurrentAt(n, base) <= j < n - 1
    ensures FailedAt(j, n + 1, base) == FailedAt(j, n, base) + 1
    ensures CurrentDuring(j + 1, n, base) == if FailedAt(j, n, base) > 4 then j + 1 else CurrentDuring(j, n, base)
  {}

  lemma CountEnds(n: nat, base: nat)
    requires 1 <= base <= n
    ensures CurrentDuring(CurrentAt(n, base), n, base) == CurrentAt(n, base)
    ensures CurrentDuring(n - 1, n, base) == CurrentAt(n + 1, base)
    ensures FailedAt(n - 1, n + 1, base) == FailedAt(n - 1, n, base) && FailedAt(n, n + 1, base) == 0
    ensures forall i: nat :: i < CurrentAt(n, base) ==> FailedAt(i, n + 1, base) == FailedAt(i, n, base)
  {}
}
