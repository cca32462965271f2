/** Iterating over the hash table of src/nc_hashtable.c while pairs are deleted and added. */
module NcHashtableIteration {
  import opened HtOrder
  import opened HtRehash
  import opened HtRing
  import opened HtTable
  import opened NcHashtable
  import opened Options

  // ---- deleting while iterating

  /** The pairs whose keys are to stay. */
  ghost function Staying(s: seq<Link>, doomed: Ptr -> bool): seq<Link> {
    if s == [] then []
    else Staying(s[..|s| - 1], doomed) + if doomed(s[|s| - 1].key) then [] else [s[|s| - 1]]
  }

  lemma {:induction false} StayingAre(s: seq<Link>, doomed: Ptr -> bool)
    ensures forall l :: l in Staying(s, doomed) <==> l in s && !doomed(l.key)
  {
    if s != [] {
      StayingAre(s[..|s| - 1], doomed);
      assert s == s[..|s| - 1] + [s[|s| - 1]];
    }
  }

  /** An iteration has come to number i of the pairs that there were. */
  ghost predicate Swept(order: seq<Link>, was: seq<Link>, doomed: Ptr -> bool, i: nat, iter: Link?) {
    && i <= |was| && iter == (if i < |was| then was[i] else null)
    && order == Staying(was[..i], doomed) + was[i..]
  }

  lemma SweepStarts(table: Hashtable, doomed: Ptr -> bool)
    requires table.Valid()
    ensures var was := table.order;
            Swept(was, was, doomed, 0, if was == [] then null else was[0]) && KeysAre(was, table.view)
  {}

  /** Where an iteration stands in the pairs that are left, and where it goes. */
  lemma SweepAt(order: seq<Link>, was: seq<Link>, doomed: Ptr -> bool, i: nat, iter: Link) returns (q: nat)
    requires Swept(order, was, doomed, i, iter)
    ensures i < |was| && q < |order| && order[q] == was[i] == iter
    ensures var next := if q + 1 == |order| then null else order[q + 1];
            if doomed(iter.key) then Swept(order[..q] + order[q + 1..], was, doomed, i + 1, next)
            else Swept(order, was, doomed, i + 1, next)
    ensures forall j :: 0 <= j < |order| ==> order[j] in was
  {
    StayingAre(was[..i], doomed);
    q := |Staying(was[..i], doomed)|;
    assert was[..i + 1][..i] == was[..i] && was[i..] == [was[i]] + was[i + 1..];
    assert order[..q] == Staying(was[..i], doomed) && order[q + 1..] == was[i + 1..];
    forall j | 0 <= j < |order| ensures order[j] in was {
      assert order[j] in order[..q] || order[j] in was[i..];
    }
  }

  /** Only one pair has a key equal to that of order[q]. */
  lemma OnlyOne(table: Hashtable, q: nat, p: nat)
    requires table.Valid() && q < |table.order| && p < |table.order|
    requires table.cmpKeys(table.order[p].key, table.order[q].key)
    ensures p == q
  {
    assert Different(table.head, table.order);
    assert table.order[p] in table.order && table.order[q] in table.order;
    hide Hashtable.Shape, Hashtable.Accounted;
  }

  lemma FoundOnce(table: Hashtable, q: nat)
    requires table.Valid() && q < |table.order|
    ensures Lookup(table.view, table.cmpKeys, table.order[q].key) != None
    ensures forall p :: 0 <= p < |table.order| && table.cmpKeys(table.order[p].key, table.order[q].key) ==> p == q
  {
    table.Found(table.order[q], table.order[q].key);
    forall p | 0 <= p < |table.order| && table.cmpKeys(table.order[p].key, table.order[q].key) ensures p == q {
      OnlyOne(table, q, p);
    }
    hide Hashtable.Shape, Hashtable.Holds, Hashtable.Accounted;
  }

  ghost predicate Within(view: map<Ptr, Ptr>, was: map<Ptr, Ptr>) {
    forall k <- view :: k in was && view[k] == was[k]
  }

  /** One step: first the iterator moves on, then the pair it was at may be deleted. */
  method SweepOne(table: Hashtable, iter: Link, doomed: Ptr -> bool, ghost was: seq<Link>, ghost i: nat)
    returns (next: Link?)
    requires table.Valid() && Swept(table.order, was, doomed, i, iter)
    modifies table`size, table`freedKeys, table`freedValues, table`dead, table`order, table`view
    modifies table.buckets, table.head`prev, table.head`next, was`prev, was`next
    ensures table.Valid() && i < |was| && was[i] == iter && Swept(table.order, was, doomed, i + 1, next)
    ensures Within(table.view, old(table.view))
  {
    hide Hashtable.Shape, Hashtable.Holds, Hashtable.Accounted, Hashtable.Alive, KeysOk, Lookup, Swept;
    ghost var q := SweepAt(table.order, was, doomed, i, iter);
    next := table.IterNext(iter, q + 1);
    if doomed(iter.key) {
      FoundOnce(table, q);
      ghost var order := table.order;
      var r;
      ghost var p;
      r, p := table.Del(iter.key);
      assert order[p] == iter;
    }
  }

  /** A whole iteration during which any of the pairs met are deleted: it meets all the pairs
      that there were, and just the chosen ones are gone. */
  method Sweep(table: Hashtable, doomed: Ptr -> bool) returns (met: seq<Link>)
    requires table.Valid()
    modifies table`size, table`freedKeys, table`freedValues, table`dead, table`order, table`view
    modifies table.buckets, table.head`prev, table.head`next, table.order`prev, table.order`next
    ensures table.Valid() && met == old(table.order) && table.order == Staying(old(table.order), doomed)
    ensures forall k :: k in table.view <==> k in old(table.view) && !doomed(k)
    ensures forall k <- table.view :: table.view[k] == old(table.view)[k]
  {
    hide Hashtable.Shape, Hashtable.Holds, Hashtable.Accounted, Hashtable.Alive, KeysOk, Swept;
    ghost var was, view, i := table.order, table.view, 0;
    met := [];
    var iter := table.Iter();
    SweepStarts(table, doomed);
    while iter != null
      invariant table.Valid() && Swept(table.order, was, doomed, i, iter) && i <= |was| && met == was[..i]
      invariant Within(table.view, view)
      decreases |was| - i
    {
      met := met + [iter];
      iter := SweepOne(table, iter, doomed, was, i);
      i := i + 1;
    }
    SweepEnds(table, was, view, doomed, i);
  }

  lemma SweepEnds(table: Hashtable, was: seq<Link>, view: map<Ptr, Ptr>, doomed: Ptr -> bool, i: nat)
    requires table.Valid() && Swept(table.order, was, doomed, i, null) && KeysAre(was, view)
    ensures i == |was| && was[..i] == was && table.order == Staying(was, doomed)
    ensures forall k :: k in table.view <==> k in view && !doomed(k)
  {
    assert was[..i] == was && KeysAre(table.order, table.view);
    hide Hashtable.Shape, Hashtable.Accounted, Hashtable.Holds, Hashtable.Alive, KeysAre;
    StayingAre(was, doomed);
    KeysLeft(was, view, table.order, table.view, doomed);
    hide Staying;
  }

  lemma KeysLeft(was: seq<Link>, view: map<Ptr, Ptr>, now: seq<Link>, left: map<Ptr, Ptr>, doomed: Ptr -> bool)
    requires KeysAre(was, view) && KeysAre(now, left) && forall l :: l in now <==> l in was && !doomed(l.key)
    ensures forall k :: k in left <==> k in view && !doomed(k)
  {
    forall k | k in view && !doomed(k) ensures k in left {
      var l :| l in was && l.key == k;
      assert l in now;
    }
  }

  // ---- adding while iterating

  /** The links of s that are among those of was. */
  ghost function Among(s: seq<Link>, was: seq<Link>): seq<Link> {
    if s == [] then []
    else Among(s[..|s| - 1], was) + if s[|s| - 1] in was then [s[|s| - 1]] else []
  }

  lemma {:induction false} AmongSum(s: seq<Link>, t: seq<Link>, was: seq<Link>)
    ensures Among(s + t, was) == Among(s, was) + Among(t, was)
  {
    if t == [] {
      assert s + t == s;
    } else {
      AmongSum(s, t[..|t| - 1], was);
      assert (s + t)[..|s + t| - 1] == s + t[..|t| - 1];
    }
  }

  lemma AmongOne(x: Link, was: seq<Link>)
    ensures Among([x], was) == if x in was then [x] else []
  {
    assert [x][..0] == [];
  }

  lemma {:induction false} AmongAll(s: seq<Link>, was: seq<Link>)
    requires forall l <- s :: l in was
    ensures Among(s, was) == s
  {
    if s != [] {
      assert s[|s| - 1] in s;
      AmongAll(s[..|s| - 1], was);
    }
  }

  /** An iteration that stands at number q of order has met each pair once, and of those that
      were there at first, it has met some and the others are still ahead. */
  ghost predicate Underway(order: seq<Link>, was: seq<Link>, met: seq<Link>, q: nat) {
    && q <= |order| && NoTwice(met) && (forall l <- met :: l in order[..q])
    && Among(met, was) + Among(order[q..], was) == was
  }

  ghost function At(order: seq<Link>, q: nat): Link? {
    if q < |order| then order[q] else null
  }

  lemma UnderwayStarts(was: seq<Link>)
    ensures Underway(was, was, [], 0)
  {
    assert was[0..] == was;
    AmongAll(was, was);
  }

  /** The iteration goes on to the next pair. */
  lemma UnderwayNext(order: seq<Link>, was: seq<Link>, met: seq<Link>, q: nat)
    requires Underway(order, was, met, q) && q < |order| && NoTwice(order)
    ensures Underway(order, was, met + [order[q]], q + 1)
  {
    hide Among;
    var x, ahead := order[q], order[q + 1..];
    assert order[q..] == [x] + ahead && order[..q + 1] == order[..q] + [x];
    AmongSum([x], ahead, was);
    AmongSum(met, [x], was);
    Once(order, q);
    hide NoTwice;
    NoTwicePlus(met, x);
    assert Among(met, was) + (Among([x], was) + Among(ahead, was)) == Among(met + [x], was) + Among(ahead, was);
  }

  lemma Once(order: seq<Link>, q: nat)
    requires NoTwice(order) && q < |order|
    ensures order[q] !in order[..q]
  {}

  lemma NoTwicePlus(met: seq<Link>, x: Link)
    requires NoTwice(met) && x !in met
    ensures NoTwice(met + [x])
  {}

  /** A new pair is put in, in front of number p: the iteration stands at the same pair. */
  lemma UnderwayMore(order: seq<Link>, was: seq<Link>, met: seq<Link>, q: nat, p: nat, x: Link) returns (r: nat)
    requires Underway(order, was, met, q) && q < |order| && p <= |order| && x !in was
    ensures var now := order[..p] + [x] + order[p..];
            Underway(now, was, met, r) && r < |now| && now[r] == order[q] && |now| - r <= |order| - q + 1
  {
    hide Among, NoTwice;
    r := if p <= q then q + 1 else q;
    Parts(order, q, p, x);
    if p <= q {
      MetBefore(order[..p], x, order[p..q], met, order[..p] + [x] + order[p..q]);
    } else {
      MoreAhead(order[q..p], x, order[p..], was);
    }
  }

  lemma Parts(order: seq<Link>, q: nat, p: nat, x: Link)
    requires q < |order| && p <= |order|
    ensures var now := order[..p] + [x] + order[p..];
            if p <= q then
              && now[..q + 1] == order[..p] + [x] + order[p..q] && now[q + 1..] == order[q..]
              && order[..q] == order[..p] + order[p..q]
            else
              && now[..q] == order[..q] && now[q..] == order[q..p] + [x] + order[p..]
              && order[q..] == order[q..p] + order[p..]
  {}

  lemma MetBefore(a: seq<Link>, x: Link, b: seq<Link>, met: seq<Link>, now: seq<Link>)
    requires now == a + [x] + b && forall l <- met :: l in a + b
    ensures forall l <- met :: l in now
  {}

  lemma MoreAhead(a: seq<Link>, x: Link, b: seq<Link>, was: seq<Link>)
    requires x !in was
    ensures Among(a + [x] + b, was) == Among(a + b, was)
  {
    AmongSum(a + [x], b, was);
    AmongSum(a, [x], was);
    AmongSum(a, b, was);
    AmongOne(x, was);
    hide Among;
  }

  lemma LargestPrime(i: nat)
    requires i < |PRIMES|
    ensures PRIMES[i] <= PRIMES[28]
  {}

  /** A set while an iteration stands at number q, without a rehash. */
  method AddAt(table: Hashtable, key: Ptr, value: Ptr, ghost was: seq<Link>, ghost met: seq<Link>, ghost q: nat)
    returns (ghost r: nat)
    requires table.Valid() && table.size < table.Prime()
    requires Underway(table.order, was, met, q) && q < |table.order| && forall l <- was :: l in table.order
    modifies table, table.buckets, table.head`prev, table.head`next
    modifies table.order`value, table.order`prev, table.order`next
    ensures table.Valid() && table.numBuckets == old(table.numBuckets) && table.buckets == old(table.buckets)
    ensures table.size <= old(table.size) + 1 && r < |table.order| && table.order[r] == old(table.order)[q]
    ensures |table.order| - r <= |old(table.order)| - q + 1
    ensures Underway(table.order, was, met, r) && forall l <- was :: l in table.order
    ensures forall i :: 0 <= i < |table.order| ==> table.order[i] in old(table.order) || fresh(table.order[i])
  {
    hide Hashtable.Shape, Hashtable.Holds, Hashtable.Accounted, Hashtable.Alive, KeysOk, Lookup, Underway, Place;
    ghost var order, n := table.order, table.Prime();
    LargestPrime(table.numBuckets);
    ghost var pair := table.Set(key, value);
    r := q;
    if fresh(pair) {
      ghost var p := PlaceSplit(order, pair, n);
      r := UnderwayMore(order, was, met, q, p, pair);
    }
  }

  /** An iteration with sets left to do. */
  ghost predicate Extending(table: Hashtable, was: seq<Link>, met: seq<Link>, q: nat, iter: Link?)
    reads table`order
  {
    && Underway(table.order, was, met, q) && iter == At(table.order, q)
    && forall l <- was :: l in table.order
  }

  /** A pair is met and the iterator moves on. */
  method MoveOn(table: Hashtable, iter: Link, ghost was: seq<Link>, ghost met: seq<Link>, ghost q: nat)
    returns (next: Link?)
    requires table.Valid() && Extending(table, was, met, q, iter)
    ensures Extending(table, was, met + [iter], q + 1, next) && q < |table.order|
  {
    AllDifferent(table);
    UnderwayNext(table.order, was, met, q);
    hide Underway;
    next := table.IterNext(iter, q + 1);
  }

  /** A whole iteration during which keys are set, as long as the table need not grow for
      them: each pair that was there at first is met, in order, and no pair is met twice. */
  method Extend(table: Hashtable, adds: seq<(Ptr, Ptr)>) returns (met: seq<Link>)
    requires table.Valid() && table.size + |adds| <= table.Prime()
    modifies table, table.buckets, table.head`prev, table.head`next
    modifies table.order`value, table.order`prev, table.order`next
    ensures table.Valid() && NoTwice(met) && Among(met, old(table.order)) == old(table.order)
    ensures forall l <- met :: l in table.order
  {
    hide Hashtable.Shape, Hashtable.Holds, Hashtable.Accounted, Hashtable.Alive, KeysOk, Underway, NoTwice;
    ghost var was, q: nat := table.order, 0;
    met := [];
    var a := 0;
    var iter := table.Iter();
    UnderwayStarts(was);
    while iter != null
      invariant table.Valid() && a <= |adds| && table.size + |adds| - a <= table.Prime()
      invariant Extending(table, was, met, q, iter) && q <= |table.order|
      invariant table.buckets == old(table.buckets)
      invariant forall i :: 0 <= i < |table.order| ==> table.order[i] in old(table.order) || fresh(table.order[i])
      decreases |adds| - a + |table.order| - q
    {
      if a < |adds| {
        q := AddAt(table, adds[a].0, adds[a].1, was, met, q);
        a := a + 1;
      }
      ghost var before := met;
      met := met + [iter];
      iter := MoveOn(table, iter, was, before, q);
      q := q + 1;
    }
    UnderwayEnds(table.order, was, met, q);
  }

  lemma AllDifferent(table: Hashtable)
    requires table.Valid()
    ensures NoTwice(table.order)
  {
    assert Different(table.head, table.order);
    hide Hashtable.Shape, Hashtable.Holds, Hashtable.Accounted;
  }

  lemma UnderwayEnds(order: seq<Link>, was: seq<Link>, met: seq<Link>, q: nat)
    requires Underway(order, was, met, q) && At(order, q) == null
    ensures Among(met, was) == was && NoTwice(met) && forall l <- met :: l in order
  {
    assert order[q..] == [];
  }
}
