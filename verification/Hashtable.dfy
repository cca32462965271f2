/** The hash table of src/nc_hashtable.c. */
module NcHashtable {
  import opened HtRing
  import opened HtOrder
  import opened HtTable
  import opened Options

  const PRIMES: seq<nat> := [
    5, 13, 23, 53, 97, 193, 389, 769, 1543, 3079, 6151, 12289, 24593, 49157, 98317, 196613, 393241, 786433, 1572869,
    3145739, 6291469, 12582917, 25165843, 50331653, 100663319, 201326611, 402653189, 805306457, 1610612741
  ]

  /** Each prime of the list is larger than the one before. */
  lemma PrimesGrow(i: nat)
    requires i < 29
    ensures |PRIMES| == 29 && PRIMES[i] > 0 && (i < 28 ==> PRIMES[i] < PRIMES[i + 1])
  {}

  /** Whatever was given is live or freed, unless freeing is off. */
  ghost predicate Balance(on: bool, freed: seq<Ptr>, live: seq<Ptr>, given: multiset<Ptr>) {
    on ==> multiset(freed) + multiset(live) == given
  }

  ghost predicate NoneIn(o: seq<Link>, dead: set<Link>) { forall i :: 0 <= i < |o| ==> o[i] !in dead }

  /** Between was and now the first i links of o were freed, and no other. */
  ghost predicate Cleared(now: set<Link>, was: set<Link>, o: seq<Link>, i: nat)
    requires i <= |o|
  {
    now == was + (set l | l in o[..i])
  }

  /** freed after one more call of the callback, if that is set. */
  ghost function Freed(on: bool, freed: seq<Ptr>, x: Ptr): seq<Ptr> {
    if on then freed + [x] else freed
  }

  /** freed after a call for each of xs. */
  ghost function FreedAll(on: bool, freed: seq<Ptr>, xs: seq<Ptr>): seq<Ptr> {
    if on then freed + xs else freed
  }

  /** One link further: what has been freed by then. */
  lemma OneFurther(on: bool, freed: seq<Ptr>, o: seq<Link>, i: nat, view: map<Ptr, Ptr>)
    requires i < |o| && forall l <- o :: l.key in view
    ensures FreedAll(on, freed, Keys(o[..i + 1])) == Freed(on, FreedAll(on, freed, Keys(o[..i])), o[i].key)
    ensures FreedAll(on, freed, Values(o[..i + 1], view)) ==
            Freed(on, FreedAll(on, freed, Values(o[..i], view)), view[o[i].key])
  {
    assert Keys(o[..i + 1]) == Keys(o[..i]) + [o[i].key];
    assert Values(o[..i + 1], view) == Values(o[..i], view) + [view[o[i].key]];
  }

  class Hashtable {
    const head: Link
    var size: nat
    var buckets: array<Bucket>
    var numBuckets: nat  // index into PRIMES
    const hashKey: Ptr -> nat
    const cmpKeys: Cmp
    // Are the callbacks free_key and free_value set? What they were called with is recorded.
    const freeKey: bool
    const freeValue: bool
    var freedKeys: seq<Ptr>
    var freedValues: seq<Ptr>

    // the pairs on the list, the map they stand for, and everything that was handed in
    ghost var order: seq<Link>
    ghost var view: map<Ptr, Ptr>
    ghost var givenKeys: multiset<Ptr>
    ghost var givenValues: multiset<Ptr>
    // the pairs that have been freed
    ghost var dead: set<Link>

    /** nc_hashtable_init */
    constructor (hashKey: Ptr -> nat, cmpKeys: Cmp, freeKey: bool, freeValue: bool)
      requires KeysOk(hashKey, cmpKeys)
      ensures Valid() && view == map[] && order == [] && givenKeys == multiset{} && givenValues == multiset{}
      ensures this.hashKey == hashKey && this.cmpKeys == cmpKeys && this.freeKey == freeKey
              && this.freeValue == freeValue
      ensures fresh(head) && fresh(buckets) && freedKeys == freedValues == []
    {
      size := 0;
      numBuckets := 0;
      this.hashKey, this.cmpKeys, this.freeKey, this.freeValue := hashKey, cmpKeys, freeKey, freeValue;
      freedKeys, freedValues := [], [];
      var list := new Link(NULL, 0, NULL);
      head := list;
      order, view, givenKeys, givenValues, dead := [], map[], multiset{}, multiset{}, {};
      // allocation, and the loop that makes every window empty
      buckets := new Bucket[PRIMES[0]](_ => Bucket(list, list));
      new;
      Init(head);
    }

    function Prime(): nat
      requires numBuckets < |PRIMES|
      reads this`numBuckets
    {
      PRIMES[numBuckets]
    }

    /** List and buckets fit together for n buckets. */
    ghost predicate Shape(o: seq<Link>, n: nat)
      reads this`buckets, buckets, head`prev, head`next, o`prev, o`next
    {
      0 < n && Ring(head, o) && Windows(buckets[..], o, n, head) && Grouped(o, n)
    }

    /** The pairs on the list are the entries of v. */
    ghost predicate Holds(o: seq<Link>, v: map<Ptr, Ptr>)
      reads o`value
    {
      && KeysAre(o, v) && Unique(v, cmpKeys)
      && forall l <- o :: l.hash == hashKey(l.key) && l.value == v[l.key]
    }

    /** Nothing handed in is lost: it is in a live pair or it has been freed. */
    ghost predicate Accounted(o: seq<Link>, v: map<Ptr, Ptr>)
      reads this`freedKeys, this`freedValues, this`givenKeys, this`givenValues
    {
      && Balance(freeKey, freedKeys, Keys(o), givenKeys)
      && Balance(freeValue, freedValues, Values(o, v), givenValues)
    }

    /** The head and the pairs on the list have not been freed. */
    ghost predicate Alive(o: seq<Link>)
      reads this`dead
    {
      head !in dead && NoneIn(o, dead)
    }

    ghost predicate Valid()
      reads this, head, order, buckets
    {
      && numBuckets < |PRIMES| && KeysOk(hashKey, cmpKeys)
      && Shape(order, Prime()) && Holds(order, view) && Accounted(order, view)
      && Alive(order) && size == |order| <= Prime()
    }

    /** bucket_is_empty */
    predicate IsEmpty(bucket: Bucket) { bucket.first == head && bucket.first == bucket.last }

    /** insert_to_bucket */
    method InsertToBucket(index: nat, list: Link, ghost o: seq<Link>, ghost n: nat)
      requires Shape(o, n) && index < n && index == list.hash % n
      requires list != head && list !in o
      modifies buckets, list`prev, list`next, head`prev, head`next, o`prev, o`next
      ensures Shape(Place(o, list, n), n)
    {
      ghost var bs := buckets[..];
      assert Window(bs[index], o, n, index, head);
      PlaceWindows(bs, o, list, n, head);
      PlaceGrouped(o, list, n);
      FirstIs(o, n, index);
      ghost var p := PlaceSplit(o, list, n);
      hide Grouped, Place, First;
      if IsEmpty(buckets[index]) {
        Insert(head, list, head, o, |o|);
        buckets[index] := Bucket(list, list);
      } else {
        Insert(buckets[index].first, list, head, o, p);
        buckets[index] := buckets[index].(first := list);
      }
    }

    /** hashtable_find_pair: walk the window of the bucket. */
    method FindPair(index: nat, key: Ptr, hash: nat, ghost o: seq<Link>, ghost n: nat) returns (pair: Link?)
      requires Shape(o, n) && index == hash % n
      ensures pair != null ==> pair in o && pair.hash == hash && cmpKeys(pair.key, key)
      ensures pair == null ==> forall l <- o :: !(l.hash == hash && cmpKeys(l.key, key))
    {
      assert Window(buckets[..][index], o, n, index, head);
      FirstIs(o, n, index);
      if IsEmpty(buckets[index]) {
        return null;
      }
      ghost var lo, hi := Span(o, n, index);
      ghost var i := lo;
      var list := buckets[index].first;
      while true
        invariant lo <= i <= hi && list == o[i]
        invariant forall j :: lo <= j < i ==> !(o[j].hash == hash && cmpKeys(o[j].key, key))
        decreases hi - i
      {
        if list.hash == hash && cmpKeys(list.key, key) {
          return list;
        }
        if list == buckets[index].last {
          break;
        }
        assert Nth(head, o, i + 1).next == Nth(head, o, i + 2);
        list := list.next;
        i := i + 1;
      }
      return null;
    }

    /** From list on, the links of o from number i lead to the head. */
    ghost predicate Chain(o: seq<Link>, i: nat, list: Link)
      reads o
    {
      && i <= |o| && list == (if i < |o| then o[i] else head)
      && forall j :: i <= j < |o| ==> o[j].next == if j + 1 < |o| then o[j + 1] else head
    }

    /** hashtable_do_rehash: thread the pairs anew, while walking them, for the next prime. */
    method Rehash()
      requires numBuckets + 1 < |PRIMES| && Shape(order, Prime())
      modifies this`numBuckets, this`buckets, this`order, head`prev, head`next, order`prev, order`next
      ensures numBuckets == old(numBuckets) + 1 && fresh(buckets)
      ensures Shape(order, Prime()) && order == Placed(old(order), Prime())
    {
      PrimesGrow(numBuckets + 1);
      numBuckets := numBuckets + 1;
      var newSize := Prime();
      buckets := new Bucket[newSize](_ => Bucket(head, head));
      var list := head.next;
      RingChain();
      Init(head);
      Rethread(list, order, newSize);
      order := Placed(order, newSize);
    }

    lemma RingChain()
      requires Ring(head, order)
      ensures Chain(order, 0, head.next)
    {
      assert Nth(head, order, 0).next == Nth(head, order, 1);
      forall j | 0 <= j < |order| ensures order[j].next == if j + 1 < |order| then order[j + 1] else head {
        assert Nth(head, order, j + 1).next == Nth(head, order, j + 2);
      }
    }

    lemma Ahead(o: seq<Link>, i: nat, done: seq<Link>, n: nat)
      requires 0 < n && Different(head, o) && i < |o| && done == Placed(o[..i], n)
      ensures forall k :: 0 <= k < |done| ==> done[k] in o
      ensures forall j :: i <= j < |o| ==> o[j] !in done && o[j] != head
    {
      PlacedElems(o[..i], n);
      assert forall k :: 0 <= k < |done| ==> done[k] in o[..i];
    }

    /** Move one pair over; the part of the chain still ahead is not touched. */
    method RethreadOne(list: Link, newSize: nat, ghost o: seq<Link>, ghost i: nat, ghost done: seq<Link>)
      returns (next: Link)
      requires Shape(done, newSize) && Different(head, o)
      requires Chain(o, i, list) && list != head && done == Placed(o[..i], newSize)
      modifies buckets, head`prev, head`next, o`prev, o`next
      ensures i < |o| && Chain(o, i + 1, next) && Shape(Placed(o[..i + 1], newSize), newSize)
    {
      hide Ring, Windows, Grouped, Place;
      ChainStep(o, i, list);
      next := list.next;
      Ahead(o, i, done, newSize);
      assert o[..i + 1][..i] == o[..i] && o[..i + 1][i] == list;
      ghost var after := seq(|o|, j requires 0 <= j < |o| reads o => o[j].next);
      InsertToBucket(list.hash % newSize, list, done, newSize);
      forall j | i + 1 <= j < |o| ensures o[j].next == if j + 1 < |o| then o[j + 1] else head {
        assert o[j] !in done && o[j] != list && o[j] != head;
        assert o[j].next == after[j];
      }
    }

    /** The walk visits every pair once and ends at the head. */
    method Rethread(list0: Link, ghost o: seq<Link>, newSize: nat)
      requires Shape([], newSize) && Chain(o, 0, list0) && Different(head, o)
      modifies buckets, head`prev, head`next, o`prev, o`next
      ensures Shape(Placed(o, newSize), newSize)
    {
      var list := list0;
      ghost var i := 0;
      while list != head
        invariant Chain(o, i, list) && Shape(Placed(o[..i], newSize), newSize)
        decreases |o| - i
      {
        list := RethreadOne(list, newSize, o, i, Placed(o[..i], newSize));
        i := i + 1;
      }
      assert o[..i] == o;
    }

    /** Rehashing keeps the pairs: the map stays, so does all accounting. */
    lemma Reordered(o: seq<Link>, n: nat, v: map<Ptr, Ptr>)
      requires n > 0 && Holds(o, v) && Accounted(o, v)
      ensures |Placed(o, n)| == |o| && forall l :: l in Placed(o, n) <==> l in o
      ensures forall i :: 0 <= i < |o| ==> Placed(o, n)[i] in o
      ensures Holds(Placed(o, n), v) && Accounted(Placed(o, n), v) && (Alive(o) ==> Alive(Placed(o, n)))
    {
      PlacedElems(o, n);
      SameKeys(o, Placed(o, n), v);
      PlacedBag(o, n, v);
      forall l <- Placed(o, n) ensures l.hash == hashKey(l.key) && l.key in v && l.value == v[l.key] {
        assert l in o;
      }
      hide Placed, Keys, Values, KeysAre, Unique;
    }

    lemma PlacedBag(o: seq<Link>, n: nat, v: map<Ptr, Ptr>)
      requires n > 0 && Accounted(o, v)
      ensures |Placed(o, n)| == |o| && Accounted(Placed(o, n), v)
    {
      hide Placed;
      PlacedSame(o, n);
      BagPermuted(o, Placed(o, n), v);
    }

    /** A rehash of a whole table. */
    method Grow()
      requires Valid() && numBuckets + 1 < |PRIMES|
      modifies this`numBuckets, this`buckets, this`order, head`prev, head`next, order`prev, order`next
      ensures Valid() && view == old(view) && forall l :: l in order <==> l in old(order)
      ensures numBuckets == old(numBuckets) + 1 && fresh(buckets) && order == Placed(old(order), Prime())
    {
      hide Shape, Accounted, Holds, KeysOk, Placed, Alive;
      PrimesGrow(numBuckets);
      Reordered(order, PRIMES[numBuckets + 1], view);
      Rehash();
    }

    /** The first step of a set: a larger bucket array once there is a pair for every bucket. */
    method MakeRoom()
      requires Valid() && size < PRIMES[28]
      modifies this`numBuckets, this`buckets, this`order, head`prev, head`next, order`prev, order`next
      ensures Valid() && size < Prime() && view == old(view) && forall l :: l in order <==> l in old(order)
      ensures numBuckets == old(numBuckets) + (if old(size) >= PRIMES[old(numBuckets)] then 1 else 0)
      ensures if numBuckets == old(numBuckets) then buckets == old(buckets) else fresh(buckets)
      ensures order == Threaded(old(order), old(numBuckets))
    {
      hide Shape, Accounted, Holds, KeysOk, Alive;
      if size >= Prime() {
        PrimesGrow(numBuckets);
        Grow();
      }
    }

    /** A pair that is found stands for its entry of the map ... */
    lemma Found(pair: Link, key: Ptr)
      requires KeysOk(hashKey, cmpKeys) && Holds(order, view) && pair in order && cmpKeys(pair.key, key)
      ensures pair.key in view && Lookup(view, cmpKeys, key) == Some(pair.value) == Some(view[pair.key])
    {
      LookupStored(view, cmpKeys, hashKey, key, pair.key);
    }

    /** ... and when none is found the map has no entry. */
    lemma NotFound(key: Ptr)
      requires KeysOk(hashKey, cmpKeys) && Holds(order, view)
      requires forall l <- order :: !(l.hash == hashKey(key) && cmpKeys(l.key, key))
      ensures cmpKeys(key, key) && forall k <- view :: !cmpKeys(k, key)
      ensures forall k :: cmpKeys(key, k) ==> Lookup(view, cmpKeys, k) == None
    {
      forall k <- view ensures !cmpKeys(k, key) {
        var l :| l in order && l.key == k;
      }
    }

    /** What a new value for the pair order[p] does to the map. */
    lemma WriteLaws(p: nat, value: Ptr)
      requires Valid() && p < |order|
      ensures order[p].key in view
      ensures var v := view[order[p].key := value];
              && KeysAre(order, v) && Unique(v, cmpKeys)
              && (forall l <- order :: l.key in v)
              && (forall l <- order :: l != order[p] ==> v[l.key] == view[l.key])
              && Balance(freeValue, Freed(freeValue, freedValues, view[order[p].key]), Values(order, v),
                         givenValues + multiset{value})
    {
      hide Windows, Grouped;
      BagUpdate(order, p, view, value);
      assert Values(order, view)[p] == view[order[p].key];
      assert view[order[p].key] in multiset(Values(order, view));
      assert forall l <- order :: l != order[p] ==> l.key != order[p].key;
    }

    method Overwrite(pair: Link, value: Ptr)
      requires numBuckets < |PRIMES| && Shape(order, Prime())
      modifies pair`value, this`freedValues
      ensures Shape(order, Prime()) && pair.value == value
      ensures freedValues == Freed(freeValue, old(freedValues), old(pair.value))
    {
      hide Shape;
      if freeValue {
        freedValues := freedValues + [pair.value];
      }
      pair.value := value;
    }

    /** nc_hashtable_iter_set: a new value for a pair; the old one is freed. */
    method IterSet(iter: Link, value: Ptr)
      requires Valid() && iter in order
      modifies iter`value, this`freedValues, this`view, this`givenValues
      ensures Valid() && iter.key in old(view) && view == old(view)[iter.key := value]
      ensures freedValues == Freed(freeValue, old(freedValues), old(view)[iter.key])
      ensures givenValues == old(givenValues) + multiset{value}
    {
      hide Shape, KeysOk, Keys, Values, Balance, KeysAre, Unique, Freed, Alive, Prime;
      ghost var p :| 0 <= p < |order| && order[p] == iter;
      WriteLaws(p, value);
      Overwrite(iter, value);
      view, givenValues := view[iter.key := value], givenValues + multiset{value};
    }

    lemma AddView(list: Link, value: Ptr, n: nat)
      requires n > 0 && KeysOk(hashKey, cmpKeys) && Holds(order, view)
      requires list !in order && forall k <- view :: !cmpKeys(k, list.key)
      ensures var o, v := Place(order, list, n), view[list.key := value];
              && KeysAre(o, v) && Unique(v, cmpKeys) && |o| == |order| + 1
              && (forall l :: l in o <==> l in order || l == list)
              && (forall l <- o :: l.key in v && (l != list ==> l.key in view && v[l.key] == view[l.key]))
    {
      assert cmpKeys(list.key, list.key);
      assert Unique(view[list.key := value], cmpKeys) by {
        SetLaw(view, cmpKeys, hashKey, list.key, list.key, value);
      }
      PlaceElems(order, list, n);
      hide KeysAre, Unique, Place, KeysOk;
      var p := PlaceSplit(order, list, n);
      assert order == order[..p] + order[p..];
      KeysPlus(order[..p], list, order[p..], view, value);
    }

    lemma AddBags(list: Link, value: Ptr, n: nat)
      requires n > 0 && KeysAre(order, view) && Accounted(order, view) && list.key !in view
      ensures var o, v := Place(order, list, n), view[list.key := value];
              && Balance(freeKey, freedKeys, Keys(o), givenKeys + multiset{list.key})
              && Balance(freeValue, freedValues, Values(o, v), givenValues + multiset{value})
    {
      hide KeysAre, Keys, Values, Place;
      var p := PlaceSplit(order, list, n);
      assert order == order[..p] + order[p..];
      KeysPlus(order[..p], list, order[p..], view, value);
    }

    /** A new pair for a key no stored key is equal to. */
    lemma AddLaws(list: Link, value: Ptr, n: nat)
      requires n > 0 && KeysOk(hashKey, cmpKeys) && Holds(order, view) && Accounted(order, view)
      requires list !in order && list.hash == hashKey(list.key) && list.value == value
      requires forall k <- view :: !cmpKeys(k, list.key)
      ensures var o, v := Place(order, list, n), view[list.key := value];
              && Holds(o, v) && |o| == |order| + 1
              && (forall l :: l in o <==> l in order || l == list)
              && (forall l <- o :: l.key in v)
              && Balance(freeKey, freedKeys, Keys(o), givenKeys + multiset{list.key})
              && Balance(freeValue, freedValues, Values(o, v), givenValues + multiset{value})
    {
      AddView(list, value, n);
      assert cmpKeys(list.key, list.key);
      AddBags(list, value, n);
      hide KeysAre, Unique, Place, Balance, Keys, Values, KeysOk;
      var v := view[list.key := value];
      forall l <- Place(order, list, n) ensures l.hash == hashKey(l.key) && l.key in v && l.value == v[l.key] {
        if l != list { assert l in order && v[l.key] == view[l.key]; }
      }
    }

    /** A new pair on the list and in its bucket. */
    method NewPair(key: Ptr, value: Ptr, hash: nat, index: nat) returns (pair: Link)
      requires numBuckets < |PRIMES| && Shape(order, Prime()) && index == hash % Prime()
      modifies buckets, head`prev, head`next, order`prev, order`next
      ensures fresh(pair) && pair !in dead && pair.key == key && pair.hash == hash && pair.value == value
      ensures Shape(Place(order, pair, Prime()), Prime())
    {
      pair := new Link(key, hash, value);
      hide Ring, Windows, Grouped, Place;
      InsertToBucket(index, pair, order, Prime());
    }

    lemma AliveMore(o: seq<Link>, t: seq<Link>, pair: Link)
      requires Alive(o) && pair !in dead && forall l :: l in t <==> l in o || l == pair
      ensures Alive(t)
    {
      forall i | 0 <= i < |t| ensures t[i] !in dead { assert t[i] in t; }
    }

    /** The branch of a set that makes a new pair. */
    method Add(key: Ptr, value: Ptr, hash: nat, index: nat) returns (pair: Link)
      requires Valid() && size < Prime() && hash == hashKey(key) && index == hash % Prime()
      requires forall k <- view :: !cmpKeys(k, key)
      modifies this`size, this`order, this`view, this`givenKeys, this`givenValues
      modifies buckets, head`prev, head`next, order`prev, order`next
      ensures Valid() && view == old(view)[key := value] && size == old(size) + 1
      ensures fresh(pair) && pair.key == key && order == Place(old(order), pair, Prime())
      ensures forall m :: m in order <==> m in old(order) || m == pair
      ensures givenKeys == old(givenKeys) + multiset{key} && givenValues == old(givenValues) + multiset{value}
    {
      hide Shape, KeysOk, Keys, Values, Balance, Holds, Place, Alive, Prime;
      pair := NewPair(key, value, hash, index);
      AddLaws(pair, value, Prime());
      AliveMore(order, Place(order, pair, Prime()), pair);
      size := size + 1;
      order := Place(order, pair, Prime());
      view := view[key := value];
      givenKeys, givenValues := givenKeys + multiset{key}, givenValues + multiset{value};
    }

    /** The order once there is room: as it was, or threaded anew for the next prime. */
    ghost function Threaded(was: seq<Link>, buckets: nat): seq<Link>
      requires numBuckets < |PRIMES|
      reads this`numBuckets
    {
      if numBuckets == buckets then was else Placed(was, Prime())
    }

    /** nc_hashtable_set; pair is where the value is now. */
    method Set(key: Ptr, value: Ptr) returns (ghost pair: Link)
      requires Valid() && size < PRIMES[28]
      modifies this, buckets, head`prev, head`next, order`value, order`prev, order`next
      ensures Valid() && if numBuckets == old(numBuckets) then buckets == old(buckets) else fresh(buckets)
      ensures forall i :: 0 <= i < |order| ==> order[i] in old(order) || fresh(order[i])
      ensures forall l <- old(order) :: l in order
      ensures forall k ::
                Lookup(view, cmpKeys, k) == if cmpKeys(key, k) then Some(value) else old(Lookup(view, cmpKeys, k))
      ensures pair in order && cmpKeys(pair.key, key) && view == old(view)[pair.key := value]
      ensures givenKeys == old(givenKeys) + multiset{key} && givenValues == old(givenValues) + multiset{value}
      ensures match old(Lookup(view, cmpKeys, key))
              case None =>
                && size == old(size) + 1 && pair.key == key && fresh(pair)
                && order == Place(Threaded(old(order), old(numBuckets)), pair, Prime())
                && freedKeys == old(freedKeys) && freedValues == old(freedValues)
              case Some(was) =>
                && size == old(size) && view.Keys == old(view.Keys) && pair in old(order)
                && order == Threaded(old(order), old(numBuckets))
                && freedKeys == Freed(freeKey, old(freedKeys), key)
                && freedValues == Freed(freeValue, old(freedValues), was)
      ensures numBuckets == old(numBuckets) + (if old(size) >= PRIMES[old(numBuckets)] then 1 else 0)
    {
      hide Shape, Holds, Accounted, Freed, Lookup, KeysOk, Prime;
      MakeRoom();
      assert forall i :: 0 <= i < |order| ==> order[i] in old(order);
      pair := Store(key, value);
    }

    /** A set once there is room. */
    method Store(key: Ptr, value: Ptr) returns (ghost pair: Link)
      requires Valid() && size < Prime()
      modifies this`size, this`freedKeys, this`freedValues, this`order, this`view, this`givenKeys, this`givenValues
      modifies buckets, head`prev, head`next, order`value, order`prev, order`next
      ensures Valid() && forall i :: 0 <= i < |order| ==> order[i] in old(order) || fresh(order[i])
      ensures forall l <- old(order) :: l in order
      ensures forall k ::
                Lookup(view, cmpKeys, k) == if cmpKeys(key, k) then Some(value) else old(Lookup(view, cmpKeys, k))
      ensures pair in order && cmpKeys(pair.key, key) && view == old(view)[pair.key := value]
      ensures givenKeys == old(givenKeys) + multiset{key} && givenValues == old(givenValues) + multiset{value}
      ensures match old(Lookup(view, cmpKeys, key))
              case None =>
                && size == old(size) + 1 && pair.key == key && fresh(pair)
                && order == Place(old(order), pair, Prime())
                && freedKeys == old(freedKeys) && freedValues == old(freedValues)
              case Some(was) =>
                && size == old(size) && view.Keys == old(view.Keys) && pair in old(order)
                && order == old(order)
                && freedKeys == Freed(freeKey, old(freedKeys), key)
                && freedValues == Freed(freeValue, old(freedValues), was)
    {
      hide Shape, Keys, Values, Balance, KeysAre, Unique, Freed, Lookup, KeysOk, Prime;
      var hash := hashKey(key);
      var index := hash % Prime();
      var found := FindPair(index, key, hash, order, Prime());
      if found != null {
        Found(found, key);
        SetLaw(view, cmpKeys, hashKey, key, found.key, value);
        FreeKey(key);
        IterSet(found, value);
        pair := found;
      } else {
        NotFound(key);
        SetLaw(view, cmpKeys, hashKey, key, key, value);
        var added := Add(key, value, hash, index);
        pair := added;
      }
    }

    /** The key handed to a set that finds a pair is not needed. */
    method FreeKey(key: Ptr)
      requires Valid()
      modifies this`freedKeys, this`givenKeys
      ensures Valid() && freedKeys == Freed(freeKey, old(freedKeys), key)
      ensures givenKeys == old(givenKeys) + multiset{key}
    {
      hide Shape, Holds, KeysOk, Keys, Values;
      if freeKey {
        freedKeys := freedKeys + [key];
      }
      givenKeys := givenKeys + multiset{key};
    }

    /** nc_hashtable_get */
    method Get(key: Ptr) returns (value: Ptr)
      requires Valid()
      ensures value == match Lookup(view, cmpKeys, key) case None => NULL case Some(v) => v
    {
      var pair := IterAt(key);
      return if pair == null then NULL else pair.value;
    }

    /** nc_hashtable_iter_at */
    method IterAt(key: Ptr) returns (pair: Link?)
      requires Valid()
      ensures pair == null <==> Lookup(view, cmpKeys, key) == None
      ensures pair != null ==> pair in order && cmpKeys(pair.key, key) && Lookup(view, cmpKeys, key) == Some(pair.value)
    {
      hide Shape, Accounted, Lookup, KeysOk, KeysAre, Unique;
      var hash := hashKey(key);
      pair := FindPair(hash % Prime(), key, hash, order, Prime());
      if pair != null {
        Found(pair, key);
      } else {
        NotFound(key);
      }
    }

    /** Take a pair out of the window of its bucket and off the list. */
    method Unthread(pair: Link, index: nat, ghost p: nat)
      requires numBuckets < |PRIMES| && Shape(order, Prime())
      requires p < |order| && pair == order[p] && index == pair.hash % Prime()
      modifies buckets, head`prev, head`next, order`prev, order`next
      ensures Shape(order[..p] + order[p + 1..], Prime())
    {
      ghost var bs := buckets[..];
      RemoveWindows(bs, order, p, Prime(), head);
      RemoveGrouped(order, p, Prime());
      assert index < buckets.Length;
      assert pair == Nth(head, order, p + 1) && pair.prev == Nth(head, order, p)
             && pair.next == Nth(head, order, p + 2);
      hide Ring, Windows, Grouped;
      if pair == buckets[index].first && pair == buckets[index].last {
        buckets[index] := Bucket(head, head);
      } else if pair == buckets[index].first {
        buckets[index] := buckets[index].(first := pair.next);
      } else if pair == buckets[index].last {
        buckets[index] := buckets[index].(last := pair.prev);
      }
      assert buckets[..] == bs[index := Shrunk(bs[index], pair, Nth(head, order, p), Nth(head, order, p + 2), head)];
      Remove(pair, head, order, p);
    }

    lemma DropView(p: nat, key: Ptr)
      requires KeysOk(hashKey, cmpKeys) && Different(head, order) && Holds(order, view)
      requires p < |order| && cmpKeys(order[p].key, key)
      ensures var x, o := order[p], order[..p] + order[p + 1..];
              && x.key in view && x.value == view[x.key] && Lookup(view, cmpKeys, key) == Some(x.value)
              && KeysAre(o, view - {x.key}) && Unique(view - {x.key}, cmpKeys)
              && (forall l <- o :: l in order && l != x && l.key in view - {x.key})
              && (forall k ::
                    Lookup(view - {x.key}, cmpKeys, k) == if cmpKeys(key, k) then None else Lookup(view, cmpKeys, k))
    {
      var a, x, c := order[..p], order[p], order[p + 1..];
      assert order == a + [x] + c;
      assert x !in a + c && x in order;
      DelLaw(view, cmpKeys, hashKey, key, x.key);
      LookupStored(view, cmpKeys, hashKey, key, x.key);
      hide Unique, KeysOk, Lookup;
      KeysMinus(a, x, c, view);
      assert forall l <- a + c :: l in order;
    }

    lemma DropBags(p: nat)
      requires Different(head, order) && KeysAre(order, view) && Accounted(order, view) && p < |order|
      requires order[p].value == ValueOf(order[p], view)
      ensures var x, o := order[p], order[..p] + order[p + 1..];
              && Balance(freeKey, Freed(freeKey, freedKeys, x.key), Keys(o), givenKeys)
              && Balance(freeValue, Freed(freeValue, freedValues, x.value), Values(o, view - {x.key}), givenValues)
    {
      var a, x, c := order[..p], order[p], order[p + 1..];
      assert order == a + [x] + c;
      assert x !in a + c;
      hide KeysAre, Keys, Values, ValueOf;
      KeysMinus(a, x, c, view);
    }

    /** A pair less. */
    lemma DropLaws(p: nat, key: Ptr)
      requires KeysOk(hashKey, cmpKeys) && Different(head, order) && Holds(order, view) && Accounted(order, view)
      requires p < |order| && cmpKeys(order[p].key, key)
      ensures var x, o := order[p], order[..p] + order[p + 1..];
              && x.key in view && x.value == view[x.key] && Lookup(view, cmpKeys, key) == Some(x.value)
              && Holds(o, view - {x.key}) && (forall l <- o :: l in order && l != x && l.key in view - {x.key})
              && (forall k ::
                    Lookup(view - {x.key}, cmpKeys, k) == if cmpKeys(key, k) then None else Lookup(view, cmpKeys, k))
              && Balance(freeKey, Freed(freeKey, freedKeys, x.key), Keys(o), givenKeys)
              && Balance(freeValue, Freed(freeValue, freedValues, x.value), Values(o, view - {x.key}), givenValues)
    {
      DropView(p, key);
      DropBags(p);
      hide KeysAre, Unique, Keys, Values, Balance, Lookup, KeysOk, Different;
    }

    /** The link of a pair that is still there. */
    method NextOf(list: Link) returns (next: Link)
      requires list !in dead
      ensures next == list.next
    {
      next := list.next;
    }

    /** Free what the user gave for a pair, and the pair, which must not be freed before. */
    method FreePair(pair: Link)
      requires pair !in dead
      modifies this`freedKeys, this`freedValues, this`dead
      ensures freedKeys == Freed(freeKey, old(freedKeys), pair.key)
      ensures freedValues == Freed(freeValue, old(freedValues), pair.value)
      ensures dead == old(dead) + {pair}
    {
      if freeKey {
        freedKeys := freedKeys + [pair.key];
      }
      if freeValue {
        freedValues := freedValues + [pair.value];
      }
      dead := dead + {pair};
    }

    /** The others stay alive when a pair is freed. */
    lemma OthersAlive(o: seq<Link>, p: nat, was: set<Link>)
      requires Different(head, o) && p < |o| && head !in was && NoneIn(o, was)
      requires dead == was + {o[p]}
      ensures Alive(o[..p] + o[p + 1..])
    {
      var t := o[..p] + o[p + 1..];
      forall i | 0 <= i < |t| ensures t[i] !in dead {
        assert t[i] == o[if i < p then i else i + 1];
      }
    }

    /** The second half of a deletion: free a pair that is off the list. */
    method Discard(pair: Link, key: Ptr, ghost p: nat)
      requires numBuckets < |PRIMES| && KeysOk(hashKey, cmpKeys) && Different(head, order)
      requires Holds(order, view) && Accounted(order, view) && Alive(order) && size == |order| <= Prime()
      requires p < |order| && order[p] == pair && cmpKeys(pair.key, key)
      requires Shape(order[..p] + order[p + 1..], Prime())
      modifies this`size, this`freedKeys, this`freedValues, this`dead, this`order, this`view
      ensures Valid() && order == old(order)[..p] + old(order)[p + 1..] && view == old(view) - {pair.key}
      ensures forall k :: Lookup(view, cmpKeys, k) == if cmpKeys(key, k) then None else old(Lookup(view, cmpKeys, k))
      ensures old(Lookup(view, cmpKeys, key)) == Some(pair.value) && dead == old(dead) + {pair}
      ensures freedKeys == Freed(freeKey, old(freedKeys), pair.key)
      ensures freedValues == Freed(freeValue, old(freedValues), pair.value)
    {
      hide Shape, Keys, Values, Balance, KeysAre, Unique, Lookup, KeysOk, Freed, Different, Holds, Prime;
      DropLaws(p, key);
      FreePair(pair);
      OthersAlive(order, p, old(dead));
      hide Alive;
      order, view, size := order[..p] + order[p + 1..], view - {pair.key}, size - 1;
    }

    /** The branch of a deletion that has found the pair. */
    method Drop(pair: Link, key: Ptr, index: nat) returns (ghost p: nat)
      requires Valid() && pair in order && index == pair.hash % Prime() && cmpKeys(pair.key, key)
      modifies this`size, this`freedKeys, this`freedValues, this`dead, this`order, this`view
      modifies buckets, head`prev, head`next, order`prev, order`next
      ensures Valid() && p < |old(order)| && old(order)[p] == pair
      ensures order == old(order)[..p] + old(order)[p + 1..]
      ensures forall k :: Lookup(view, cmpKeys, k) == if cmpKeys(key, k) then None else old(Lookup(view, cmpKeys, k))
      ensures old(Lookup(view, cmpKeys, key)) == Some(pair.value) && view == old(view) - {pair.key}
      ensures freedKeys == Freed(freeKey, old(freedKeys), pair.key) && dead == old(dead) + {pair}
      ensures freedValues == Freed(freeValue, old(freedValues), pair.value)
    {
      p :| 0 <= p < |order| && order[p] == pair;
      assert Different(head, order);
      hide Shape, Accounted, Lookup, KeysOk, Freed, Different, Holds, Alive;
      Unthread(pair, index, p);
      Discard(pair, key, p);
    }

    /** hashtable_do_del; p is the place the pair had. */
    method DoDel(key: Ptr, hash: nat) returns (r: int, ghost p: nat)
      requires Valid() && hash == hashKey(key)
      modifies this`size, this`freedKeys, this`freedValues, this`dead, this`order, this`view
      modifies buckets, head`prev, head`next, order`prev, order`next
      ensures Valid()
      ensures forall k :: Lookup(view, cmpKeys, k) == if cmpKeys(key, k) then None else old(Lookup(view, cmpKeys, k))
      ensures r == if old(Lookup(view, cmpKeys, key)) == None then -1 else 0
      ensures r == -1 ==> view == old(view) && order == old(order) && dead == old(dead)
                          && freedKeys == old(freedKeys) && freedValues == old(freedValues)
      ensures r == 0 ==> p < |old(order)| && order == old(order)[..p] + old(order)[p + 1..]
      ensures r == 0 ==> var gone := old(order)[p];
                         && cmpKeys(gone.key, key) && view == old(view) - {gone.key} && dead == old(dead) + {gone}
                         && freedKeys == Freed(freeKey, old(freedKeys), gone.key)
                         && freedValues == Freed(freeValue, old(freedValues), gone.value)
    {
      hide Shape, Accounted, KeysAre, Unique, Lookup, KeysOk, Freed, Alive;
      var index := hash % Prime();
      var pair := FindPair(index, key, hash, order, Prime());
      if pair == null {
        NotFound(key);
        return -1, 0;
      }
      p := Drop(pair, key, index);
      r := 0;
    }

    /** nc_hashtable_del; the pairs that stay keep their order. */
    method Del(key: Ptr) returns (r: int, ghost p: nat)
      requires Valid()
      modifies this`size, this`freedKeys, this`freedValues, this`dead, this`order, this`view
      modifies buckets, head`prev, head`next, order`prev, order`next
      ensures Valid()
      ensures forall k :: Lookup(view, cmpKeys, k) == if cmpKeys(key, k) then None else old(Lookup(view, cmpKeys, k))
      ensures r == if old(Lookup(view, cmpKeys, key)) == None then -1 else 0
      ensures r == -1 ==> view == old(view) && order == old(order) && dead == old(dead)
                          && freedKeys == old(freedKeys) && freedValues == old(freedValues)
      ensures r == 0 ==> p < |old(order)| && order == old(order)[..p] + old(order)[p + 1..]
      ensures r == 0 ==> var gone := old(order)[p];
                         && cmpKeys(gone.key, key) && view == old(view) - {gone.key} && dead == old(dead) + {gone}
                         && freedKeys == Freed(freeKey, old(freedKeys), gone.key)
                         && freedValues == Freed(freeValue, old(freedValues), gone.value)
    {
      hide *;
      var hash := hashKey(key);
      r, p := DoDel(key, hash);
    }

    /** One round of the walk below. */
    method ClearOne(list: Link, ghost i: nat) returns (next: Link)
      requires Chain(order, i, list) && Different(head, order) && list != head && list !in dead
      modifies this`freedKeys, this`freedValues, this`dead
      ensures i < |order| && list == order[i] && Chain(order, i + 1, next)
      ensures freedKeys == Freed(freeKey, old(freedKeys), list.key)
      ensures freedValues == Freed(freeValue, old(freedValues), list.value)
      ensures dead == old(dead) + {list}
    {
      ChainStep(order, i, list);
      hide Chain, Different, Freed;
      next := NextOf(list);
      FreePair(list);
    }

    lemma NoneCleared()
      ensures Keys(order[..0]) == Values(order[..0], view) == [] && Cleared(dead, dead, order, 0)
    {}

    lemma NotCleared(was: set<Link>, i: nat, list: Link)
      requires i <= |order| && Cleared(dead, was, order, i) && Different(head, order)
      requires Chain(order, i, list) && list != head
      requires NoneIn(order, was)
      ensures i < |order| && list == order[i] && list !in dead
    {
      ChainStep(order, i, list);
    }

    lemma ClearedMore(was: set<Link>, before: set<Link>, i: nat)
      requires i < |order| && Cleared(before, was, order, i)
      ensures Cleared(before + {order[i]}, was, order, i + 1)
    {
      assert order[..i + 1] == order[..i] + [order[i]];
    }

    method ClearFrom(list0: Link)
      requires Chain(order, 0, list0) && Different(head, order) && Alive(order)
      requires forall l <- order :: l.key in view && l.value == view[l.key]
      modifies this`freedKeys, this`freedValues, this`dead
      ensures freedKeys == FreedAll(freeKey, old(freedKeys), Keys(order))
      ensures freedValues == FreedAll(freeValue, old(freedValues), Values(order, view))
      ensures Cleared(dead, old(dead), order, |order|)
    {
      ghost var i := 0;
      var list := list0;
      hide Values, Chain, Different, Freed, NoneIn, Cleared;
      assert Keys(order[..0]) == Values(order[..0], view) == [] && Cleared(dead, dead, order, 0) by { NoneCleared(); }
      while list != head
        invariant i <= |order| && Chain(order, i, list) && Cleared(dead, old(dead), order, i)
        invariant freedKeys == FreedAll(freeKey, old(freedKeys), Keys(order[..i]))
        invariant freedValues == FreedAll(freeValue, old(freedValues), Values(order[..i], view))
        decreases |order| - i
      {
        NotCleared(old(dead), i, list);
        ghost var before := dead;
        list := ClearOne(list, i);
        ClearedMore(old(dead), before, i);
        OneFurther(freeKey, old(freedKeys), order, i, view);
        OneFurther(freeValue, old(freedValues), order, i, view);
        i := i + 1;
      }
      ChainStep(order, i, list);
      assert order[..i] == order;
    }

    /** hashtable_do_clear: free what every pair holds, and every pair once; links are read of
        pairs only that are not freed yet. */
    method DoClear()
      requires numBuckets < |PRIMES| && Shape(order, Prime()) && Holds(order, view) && Alive(order)
      modifies this`freedKeys, this`freedValues, this`dead
      ensures freedKeys == FreedAll(freeKey, old(freedKeys), Keys(order))
      ensures freedValues == FreedAll(freeValue, old(freedValues), Values(order, view))
      ensures Cleared(dead, old(dead), order, |order|)
    {
      RingChain();
      ClearFrom(head.next);
    }

    /** One link further along the chain. */
    lemma ChainStep(o: seq<Link>, i: nat, list: Link)
      requires Chain(o, i, list) && Different(head, o)
      ensures list == head <==> i == |o|
      ensures list != head ==> list == o[i] && list !in o[..i] && Chain(o, i + 1, list.next)
    {}

    /** nc_hashtable_clear; the number of buckets stays. */
    method Clear()
      requires Valid()
      modifies this`size, this`freedKeys, this`freedValues, this`dead, this`order, this`view
      modifies buckets, head`prev, head`next
      ensures Valid() && view == map[] && order == [] && size == 0
      ensures dead == old(dead) + (set l | l in old(order))
      ensures freeKey ==> multiset(freedKeys) == givenKeys
      ensures freeValue ==> multiset(freedValues) == givenValues
      ensures freedKeys == FreedAll(freeKey, old(freedKeys), old(Keys(order)))
      ensures freedValues == FreedAll(freeValue, old(freedValues), old(Values(order, view)))
    {
      assert buckets.Length == Prime() > 0 && head !in order;
      hide Balance, Shape, FreedAll, KeysOk, Holds;
      AllFreed();
      DoClear();
      assert order[..|order|] == order;
      Reset();
    }

    /** The second half of a clear. */
    method Reset()
      requires numBuckets < |PRIMES| && KeysOk(hashKey, cmpKeys) && buckets.Length == Prime() > 0 && head !in dead
      requires Balance(freeKey, freedKeys, Keys([]), givenKeys)
      requires Balance(freeValue, freedValues, Values([], map[]), givenValues)
      modifies this`size, this`order, this`view, buckets, head`prev, head`next
      ensures Valid() && view == map[] && order == [] && size == 0
    {
      hide Balance, KeysOk, Keys, Values;
      EmptyBuckets();
      order, view, size := [], map[], 0;
    }

    /** Freeing what all pairs hold frees what is left of everything handed in. */
    lemma AllFreed()
      requires Holds(order, view) && Accounted(order, view)
      ensures var f := FreedAll(freeKey, freedKeys, Keys(order));
              Balance(freeKey, f, Keys([]), givenKeys) && (freeKey ==> multiset(f) == givenKeys)
      ensures var f := FreedAll(freeValue, freedValues, Values(order, view));
              Balance(freeValue, f, Values([], map[]), givenValues) && (freeValue ==> multiset(f) == givenValues)
    {
    }

    /** Empty windows and an empty list. */
    method EmptyBuckets()
      requires numBuckets < |PRIMES| && buckets.Length == Prime() > 0
      modifies buckets, head`prev, head`next
      ensures Shape([], Prime())
    {
      for i := 0 to Prime()
        invariant forall b :: 0 <= b < i ==> buckets[b] == Bucket(head, head)
      {
        buckets[i] := Bucket(head, head);
      }
      Init(head);
    }

    /** nc_hashtable_deinit: nothing that was handed in is left. */
    method Deinit()
      requires Valid()
      modifies this`freedKeys, this`freedValues, this`dead
      ensures freeKey ==> multiset(freedKeys) == givenKeys
      ensures freeValue ==> multiset(freedValues) == givenValues
      ensures forall l <- order :: l in dead
    {
      hide Balance, Keys, Values, FreedAll;
      AllFreed();
      DoClear();
      assert order[..|order|] == order;
    }

    /** nc_hashtable_iter */
    method Iter() returns (iter: Link?)
      requires Valid()
      ensures iter == if order == [] then null else order[0]
    {
      assert Nth(head, order, 0) == head;
      iter := IterNext(head, 0);
    }

    /** nc_hashtable_iter_next: from number i to number i + 1; number 0 is the head. */
    method IterNext(iter: Link, ghost i: nat) returns (next: Link?)
      requires Valid() && i <= |order| && iter == Nth(head, order, i)
      ensures next == if i == |order| then null else order[i]
    {
      assert Nth(head, order, i).next == Nth(head, order, i + 1);
      if iter.next == head {
        return null;
      }
      return iter.next;
    }

    /** A deletion does not disturb an iteration: from a pair that stays, it goes on to those
        pairs behind it that stay, in their order. */
    lemma IterationGoesOn(was: seq<Link>, p: nat, i: nat)
      requires p < |was| && i < |was| && i != p && order == was[..p] + was[p + 1..]
      ensures var j := if i < p then i else i - 1;
              && j < |order| && order[j] == was[i]
              && order[j + 1..] == if i < p then was[i + 1..p] + was[p + 1..] else was[i + 1..]
    {}

    /** What an iteration meets: as many pairs as the map has keys, every key at one place,
        with its value. */
    lemma IterationMeets()
      requires Valid()
      ensures |order| == |view| == size
      ensures forall i, j :: 0 <= i < j < |order| ==> order[i].key != order[j].key
      ensures forall k <- view :: exists i :: 0 <= i < |order| && order[i].key == k && order[i].value == view[k]
    {
      hide Windows, Grouped;
      assert Different(head, order);
      SizeIs(order, view);
      forall k <- view ensures exists i :: 0 <= i < |order| && order[i].key == k && order[i].value == view[k] {
        var l :| l in order && l.key == k;
        var i :| 0 <= i < |order| && order[i] == l;
        assert order[i].key == k && order[i].value == view[k];
      }
    }

    /** A key handed in once is in exactly one live pair or was freed exactly once. */
    lemma KeyLiveOrFreed(k: Ptr)
      requires Valid() && freeKey && givenKeys[k] == 1
      ensures if k in freedKeys then multiset(freedKeys)[k] == 1 && forall l <- order :: l.key != k
              else exists l :: l in order && l.key == k && forall m <- order :: m.key == k ==> m == l
    {
      hide Shape, Balance, KeysAre, Unique, Prime;
      LiveOrFreed(freedKeys, Keys(order), givenKeys, k);
      if k !in freedKeys {
        var i :| 0 <= i < |order| && Keys(order)[i] == k;
        assert order[i] in order;
      } else {
        assert forall i :: 0 <= i < |order| ==> Keys(order)[i] == order[i].key;
      }
    }

    /** ... and so is a value. */
    lemma ValueLiveOrFreed(v: Ptr)
      requires Valid() && freeValue && givenValues[v] == 1
      ensures if v in freedValues then multiset(freedValues)[v] == 1 && forall l <- order :: l.value != v
              else exists l :: l in order && l.value == v && forall m <- order :: m.value == v ==> m == l
    {
      hide Shape, Balance, Unique, Prime;
      var vs := Values(order, view);
      assert forall i :: 0 <= i < |order| ==> vs[i] == order[i].value;
      LiveOrFreed(freedValues, vs, givenValues, v);
      if v !in freedValues {
        var i :| 0 <= i < |order| && vs[i] == v;
        assert order[i] in order;
      }
    }
  }

  /** One copy of x was given: it is freed, once, or it is one of the live ones. */
  lemma LiveOrFreed(freed: seq<Ptr>, live: seq<Ptr>, given: multiset<Ptr>, x: Ptr)
    requires Balance(true, freed, live, given) && given[x] == 1
    ensures if x in freed then multiset(freed)[x] == 1 && x !in live
            else x in live && forall i, j :: 0 <= i < |live| && 0 <= j < |live| && live[i] == live[j] == x ==> i == j
  {
    assert multiset(freed)[x] + multiset(live)[x] == 1;
    Counted(freed, x);
    Counted(live, x);
  }

  /** What the number of copies of x says about s. */
  lemma Counted(s: seq<Ptr>, x: Ptr)
    ensures multiset(s)[x] == 0 <==> x !in s
    ensures multiset(s)[x] == 1 ==> forall i, j :: 0 <= i < |s| && 0 <= j < |s| && s[i] == s[j] == x ==> i == j
  {
    assert x in s <==> x in multiset(s);
    forall i, j | 0 <= i < j < |s| && s[i] == s[j] == x ensures multiset(s)[x] >= 2 {
      assert s == s[..i] + [s[i]] + s[i + 1..j] + [s[j]] + s[j + 1..];
    }
  }
}
