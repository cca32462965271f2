/** Runs of the hash table of src/nc_hashtable.c, and what a table is from outside: each key
    has the value that the last call about an equal key gave it. */
module NcHashtableRuns {
  import opened HtOrder
  import opened HtRehash
  import opened HtRing
  import opened HtTable
  import opened NcHashtable
  import opened Options

  /** Replace is nc_hashtable_iter_at and, if that finds a pair, nc_hashtable_iter_set. */
  datatype Op =
    Set(key: Ptr, value: Ptr) | Get(key: Ptr) | Replace(key: Ptr, value: Ptr) | Del(key: Ptr) | Clear

  /** What a table holds for a key: the key that was handed in first, and the last value. */
  datatype Entry = Entry(key: Ptr, value: Ptr)

  /** The entry for k after op, if it was `was` before. */
  ghost function Effect(op: Op, cmp: Cmp, was: Option<Entry>, k: Ptr): Option<Entry> {
    match op
    case Set(key, value) =>
      if !cmp(key, k) then was else Some(if was.Some? then Entry(was.value.key, value) else Entry(key, value))
    case Get(_) => was
    case Replace(key, value) => if cmp(key, k) && was.Some? then Some(Entry(was.value.key, value)) else was
    case Del(key) => if cmp(key, k) then None else was
    case Clear => None
  }

  /** The entry for k after all of ops, from an empty table on. */
  ghost function Stored(ops: seq<Op>, cmp: Cmp, k: Ptr): Option<Entry> {
    if ops == [] then None
    else Effect(ops[|ops| - 1], cmp, Stored(ops[..|ops| - 1], cmp, k), k)
  }

  /** What the call op returns if there is that entry for its key. */
  ghost function Answer(op: Op, was: Option<Entry>): int {
    match op
    case Get(_) => if was.Some? then was.value.value else NULL
    case Del(_) => if was.Some? then 0 else -1
    case _ => 0
  }

  /** The key that the call op hands over. */
  ghost function KeysIn(op: Op): multiset<Ptr> {
    if op.Set? then multiset{op.key} else multiset{}
  }

  /** The value that the call op hands over if there is that entry for its key. */
  ghost function ValuesIn(op: Op, was: Option<Entry>): multiset<Ptr> {
    if op.Set? || (op.Replace? && was.Some?) then multiset{op.value} else multiset{}
  }

  ghost function About(op: Op): Ptr { if op.Clear? then NULL else op.key }

  /** All keys handed over by ops. */
  ghost function AllKeys(ops: seq<Op>): multiset<Ptr> {
    if ops == [] then multiset{} else AllKeys(ops[..|ops| - 1]) + KeysIn(ops[|ops| - 1])
  }

  /** All values handed over by ops. */
  ghost function AllValues(ops: seq<Op>, cmp: Cmp): multiset<Ptr> {
    if ops == [] then multiset{}
    else
      var before, op := ops[..|ops| - 1], ops[|ops| - 1];
      AllValues(before, cmp) + ValuesIn(op, Stored(before, cmp, About(op)))
  }

  /** The entry of a map for keys equal to k. */
  ghost function Held(view: map<Ptr, Ptr>, cmp: Cmp, k: Ptr): Option<Entry> {
    if s: Ptr :| s in view && cmp(s, k) then Some(Entry(s, view[s])) else None
  }

  lemma HeldIs(view: map<Ptr, Ptr>, cmp: Cmp, hash: Ptr -> nat, k: Ptr, s: Ptr)
    requires KeysOk(hash, cmp) && Unique(view, cmp) && s in view && cmp(s, k)
    ensures Held(view, cmp, k) == Some(Entry(s, view[s]))
  {
    assert forall u :: u in view && cmp(u, k) ==> u == s;
  }

  lemma HeldLookup(view: map<Ptr, Ptr>, cmp: Cmp, hash: Ptr -> nat, k: Ptr)
    requires KeysOk(hash, cmp) && Unique(view, cmp)
    ensures Lookup(view, cmp, k) == (match Held(view, cmp, k) case None => None case Some(e) => Some(e.value))
  {
    if s: Ptr :| s in view && cmp(s, k) {
      HeldIs(view, cmp, hash, k, s);
      LookupStored(view, cmp, hash, k, s);
    }
  }

  /** A value for key, under the key s equal to it that is stored, or under itself. */
  lemma HeldSet(view: map<Ptr, Ptr>, cmp: Cmp, hash: Ptr -> nat, key: Ptr, s: Ptr, v: Ptr)
    requires KeysOk(hash, cmp) && Unique(view, cmp) && Unique(view[s := v], cmp) && cmp(s, key)
    ensures forall k :: Held(view[s := v], cmp, k) == if cmp(key, k) then Some(Entry(s, v)) else Held(view, cmp, k)
  {
    var view' := view[s := v];
    forall k ensures Held(view', cmp, k) == if cmp(key, k) then Some(Entry(s, v)) else Held(view, cmp, k) {
      if cmp(key, k) {
        HeldIs(view', cmp, hash, k, s);
      } else if u: Ptr :| u in view && cmp(u, k) {
        HeldIs(view, cmp, hash, k, u);
        HeldIs(view', cmp, hash, k, u);
      }
    }
  }

  lemma HeldDel(view: map<Ptr, Ptr>, cmp: Cmp, hash: Ptr -> nat, key: Ptr, s: Ptr)
    requires KeysOk(hash, cmp) && Unique(view, cmp) && s in view && cmp(s, key)
    ensures forall k :: Held(view - {s}, cmp, k) == if cmp(key, k) then None else Held(view, cmp, k)
  {
    var view' := view - {s};
    assert Unique(view', cmp);
    forall k ensures Held(view', cmp, k) == if cmp(key, k) then None else Held(view, cmp, k) {
      if u: Ptr :| u in view && cmp(u, k) {
        HeldIs(view, cmp, hash, k, u);
        if u != s { HeldIs(view', cmp, hash, k, u); }
      }
    }
  }

  ghost predicate Agrees(view: map<Ptr, Ptr>, cmp: Cmp, ops: seq<Op>) {
    forall k :: Held(view, cmp, k) == Stored(ops, cmp, k)
  }

  ghost predicate Follows(view: map<Ptr, Ptr>, cmp: Cmp, was: map<Ptr, Ptr>, op: Op) {
    forall k :: Held(view, cmp, k) == Effect(op, cmp, Held(was, cmp, k), k)
  }

  lemma AgreesNext(was: map<Ptr, Ptr>, view: map<Ptr, Ptr>, cmp: Cmp, ops: seq<Op>, op: Op)
    requires Agrees(was, cmp, ops) && Follows(view, cmp, was, op)
    ensures Agrees(view, cmp, ops + [op])
  {
    assert (ops + [op])[..|ops|] == ops;
    hide Held, Effect;
  }

  lemma NothingHeld(view: map<Ptr, Ptr>, cmp: Cmp, hash: Ptr -> nat, key: Ptr)
    requires KeysOk(hash, cmp) && Unique(view, cmp) && Lookup(view, cmp, key) == None
    ensures forall k :: cmp(key, k) ==> Held(view, cmp, k) == None
  {
    forall k | cmp(key, k) ensures Held(view, cmp, k) == None {
      if u: Ptr :| u in view && cmp(u, k) {
        LookupStored(view, cmp, hash, key, u);
      }
    }
  }

  lemma SetFollows(view: map<Ptr, Ptr>, cmp: Cmp, hash: Ptr -> nat, was: map<Ptr, Ptr>, key: Ptr, value: Ptr, s: Ptr)
    requires KeysOk(hash, cmp) && Unique(was, cmp) && Unique(view, cmp) && cmp(s, key) && view == was[s := value]
    requires s in was || (s == key && Lookup(was, cmp, key) == None)
    ensures Follows(view, cmp, was, Set(key, value)) && (s in was ==> Follows(view, cmp, was, Replace(key, value)))
    ensures Held(was, cmp, key).Some? <==> s in was
  {
    HeldSet(was, cmp, hash, key, s, value);
    if s in was {
      forall k | cmp(key, k) ensures Held(was, cmp, k) == Some(Entry(s, was[s])) { HeldIs(was, cmp, hash, k, s); }
    } else {
      NothingHeld(was, cmp, hash, key);
    }
    assert cmp(key, key);
    hide Held, Lookup, Unique;
  }

  lemma DelFollows(view: map<Ptr, Ptr>, cmp: Cmp, hash: Ptr -> nat, was: map<Ptr, Ptr>, key: Ptr, s: Ptr)
    requires KeysOk(hash, cmp) && Unique(was, cmp) && cmp(s, key) && s in was && view == was - {s}
    ensures Follows(view, cmp, was, Del(key)) && Held(was, cmp, key).Some?
  {
    HeldDel(was, cmp, hash, key, s);
    HeldIs(was, cmp, hash, key, s);
    hide Held, Unique;
  }

  /** Calls about a key that is not there, and calls that only look. */
  lemma SameFollows(view: map<Ptr, Ptr>, cmp: Cmp, hash: Ptr -> nat, op: Op)
    requires KeysOk(hash, cmp) && Unique(view, cmp)
    requires op.Get? || ((op.Replace? || op.Del?) && Lookup(view, cmp, op.key) == None)
    ensures Follows(view, cmp, view, op) && (op.Get? || Held(view, cmp, op.key) == None)
  {
    if !op.Get? {
      NothingHeld(view, cmp, hash, op.key);
      assert cmp(op.key, op.key);
    }
    hide Held, Lookup, Unique;
  }

  lemma ClearFollows(cmp: Cmp, was: map<Ptr, Ptr>)
    ensures Follows(map[], cmp, was, Clear)
  {}

  lemma Laws(table: Hashtable)
    requires table.Valid()
    ensures KeysOk(table.hashKey, table.cmpKeys) && Unique(table.view, table.cmpKeys)
    ensures forall i :: 0 <= i < |table.order| ==> table.order[i].key in table.view
  {}

  /** One call. */
  method Call(table: Hashtable, op: Op) returns (out: int)
    requires table.Valid() && table.size < PRIMES[28]
    modifies table, table.buckets, table.head`prev, table.head`next
    modifies table.order`value, table.order`prev, table.order`next
    ensures table.Valid() && table.size <= old(table.size) + 1
    ensures table.buckets == old(table.buckets) || fresh(table.buckets)
    ensures forall i :: 0 <= i < |table.order| ==> table.order[i] in old(table.order) || fresh(table.order[i])
    ensures Follows(table.view, table.cmpKeys, old(table.view), op)
    ensures var was := Held(old(table.view), table.cmpKeys, About(op));
            && out == Answer(op, was) && table.givenKeys == old(table.givenKeys) + KeysIn(op)
            && table.givenValues == old(table.givenValues) + ValuesIn(op, was)
    ensures (table.freeKey || table.freedKeys == old(table.freedKeys))
            && (table.freeValue || table.freedValues == old(table.freedValues))
  {
    hide Hashtable.Shape, Hashtable.Holds, Hashtable.Accounted, Hashtable.Alive, KeysOk, Unique, Lookup, Held, Follows;
    hide Place, Placed;
    Laws(table);
    out := 0;
    match op
    case Set(key, value) => CallSet(table, key, value);
    case Get(key) =>
      HeldLookup(table.view, table.cmpKeys, table.hashKey, key);
      SameFollows(table.view, table.cmpKeys, table.hashKey, op);
      out := table.Get(key);
    case Replace(key, value) => CallReplace(table, key, value);
    case Del(key) => out := CallDel(table, key);
    case Clear =>
      ClearFollows(table.cmpKeys, table.view);
      table.Clear();
  }

  method CallSet(table: Hashtable, key: Ptr, value: Ptr)
    requires table.Valid() && table.size < PRIMES[28]
    modifies table, table.buckets, table.head`prev, table.head`next
    modifies table.order`value, table.order`prev, table.order`next
    ensures table.Valid() && table.size <= old(table.size) + 1
    ensures table.buckets == old(table.buckets) || fresh(table.buckets)
    ensures forall i :: 0 <= i < |table.order| ==> table.order[i] in old(table.order) || fresh(table.order[i])
    ensures Follows(table.view, table.cmpKeys, old(table.view), Set(key, value))
    ensures table.givenKeys == old(table.givenKeys) + multiset{key}
    ensures table.givenValues == old(table.givenValues) + multiset{value}
    ensures (table.freeKey || table.freedKeys == old(table.freedKeys))
            && (table.freeValue || table.freedValues == old(table.freedValues))
  {
    hide Hashtable.Shape, Hashtable.Holds, Hashtable.Accounted, Hashtable.Alive, KeysOk, Unique, Lookup, Held, Follows;
    hide Place, Placed;
    Laws(table);
    ghost var was, order := table.view, table.order;
    ghost var pair := table.Set(key, value);
    Laws(table);
    assert pair.key in was || (pair.key == key && Lookup(was, table.cmpKeys, key) == None);
    SetFollows(table.view, table.cmpKeys, table.hashKey, was, key, value, pair.key);
  }

  method CallReplace(table: Hashtable, key: Ptr, value: Ptr)
    requires table.Valid()
    modifies table`freedValues, table`view, table`givenValues, table.order`value
    ensures table.Valid() && Follows(table.view, table.cmpKeys, old(table.view), Replace(key, value))
    ensures table.givenValues ==
            old(table.givenValues) + ValuesIn(Replace(key, value), Held(old(table.view), table.cmpKeys, key))
    ensures table.freeValue || table.freedValues == old(table.freedValues)
  {
    hide Hashtable.Shape, Hashtable.Holds, Hashtable.Accounted, Hashtable.Alive, KeysOk, Unique, Lookup, Held, Follows;
    Laws(table);
    ghost var was := table.view;
    var iter := table.IterAt(key);
    if iter != null {
      table.IterSet(iter, value);
      Laws(table);
      SetFollows(table.view, table.cmpKeys, table.hashKey, was, key, value, iter.key);
    } else {
      SameFollows(was, table.cmpKeys, table.hashKey, Replace(key, value));
    }
  }

  method CallDel(table: Hashtable, key: Ptr) returns (out: int)
    requires table.Valid()
    modifies table`size, table`freedKeys, table`freedValues, table`dead, table`order, table`view
    modifies table.buckets, table.head`prev, table.head`next, table.order`prev, table.order`next
    ensures table.Valid() && table.size <= old(table.size)
    ensures forall i :: 0 <= i < |table.order| ==> table.order[i] in old(table.order)
    ensures Follows(table.view, table.cmpKeys, old(table.view), Del(key))
    ensures out == Answer(Del(key), Held(old(table.view), table.cmpKeys, key))
    ensures (table.freeKey || table.freedKeys == old(table.freedKeys))
            && (table.freeValue || table.freedValues == old(table.freedValues))
  {
    hide Hashtable.Shape, Hashtable.Holds, Hashtable.Accounted, Hashtable.Alive, KeysOk, Unique, Lookup, Held, Follows;
    Laws(table);
    ghost var was, order := table.view, table.order;
    ghost var p;
    out, p := table.Del(key);
    if out == 0 {
      DelFollows(table.view, table.cmpKeys, table.hashKey, was, key, order[p].key);
    } else {
      SameFollows(was, table.cmpKeys, table.hashKey, Del(key));
    }
  }

  /** Each call so far has answered as the calls before it say. */
  ghost predicate Answered(outs: seq<int>, ops: seq<Op>, cmp: Cmp) {
    |outs| <= |ops| && forall i :: 0 <= i < |outs| ==> outs[i] == Answer(ops[i], Stored(ops[..i], cmp, About(ops[i])))
  }

  ghost predicate Ran(view: map<Ptr, Ptr>, keys: multiset<Ptr>, values: multiset<Ptr>, cmp: Cmp, ops: seq<Op>,
                      outs: seq<int>)
  {
    && Answered(outs, ops, cmp) && Agrees(view, cmp, ops[..|outs|])
    && keys == AllKeys(ops[..|outs|]) && values == AllValues(ops[..|outs|], cmp)
  }

  lemma RanNext(was: map<Ptr, Ptr>, keys: multiset<Ptr>, values: multiset<Ptr>, view: map<Ptr, Ptr>, cmp: Cmp,
                ops: seq<Op>, outs: seq<int>, out: int)
    requires Ran(was, keys, values, cmp, ops, outs) && |outs| < |ops|
    requires var op := ops[|outs|]; Follows(view, cmp, was, op) && out == Answer(op, Held(was, cmp, About(op)))
    ensures var op := ops[|outs|];
            Ran(view, keys + KeysIn(op), values + ValuesIn(op, Held(was, cmp, About(op))), cmp, ops, outs + [out])
  {
    var i := |outs|;
    hide Held, Effect, Stored, Answer, KeysIn, ValuesIn, AllKeys, AllValues, Follows, Agrees, Answered;
    AnsweredNext(was, cmp, ops, outs, out);
    AgreesNext(was, view, cmp, ops[..i], ops[i]);
    AllNext(was, cmp, ops, i);
    assert ops[..i + 1] == ops[..i] + [ops[i]] && |outs + [out]| == i + 1;
  }

  lemma AnsweredNext(was: map<Ptr, Ptr>, cmp: Cmp, ops: seq<Op>, outs: seq<int>, out: int)
    requires Answered(outs, ops, cmp) && |outs| < |ops| && Agrees(was, cmp, ops[..|outs|])
    requires out == Answer(ops[|outs|], Held(was, cmp, About(ops[|outs|])))
    ensures Answered(outs + [out], ops, cmp)
  {
    hide Held, Stored, Answer;
  }

  lemma AllNext(was: map<Ptr, Ptr>, cmp: Cmp, ops: seq<Op>, i: nat)
    requires i < |ops| && Agrees(was, cmp, ops[..i])
    ensures AllKeys(ops[..i + 1]) == AllKeys(ops[..i]) + KeysIn(ops[i])
    ensures AllValues(ops[..i + 1], cmp) ==
            AllValues(ops[..i], cmp) + ValuesIn(ops[i], Held(was, cmp, About(ops[i])))
  {
    hide Held, Stored, KeysIn, ValuesIn;
    assert ops[..i + 1][..i] == ops[..i];
  }

  lemma Start(view: map<Ptr, Ptr>, cmp: Cmp, ops: seq<Op>)
    requires view == map[]
    ensures Ran(view, multiset{}, multiset{}, cmp, ops, [])
  {}

  lemma End(view: map<Ptr, Ptr>, keys: multiset<Ptr>, values: multiset<Ptr>, cmp: Cmp, ops: seq<Op>, outs: seq<int>)
    requires Ran(view, keys, values, cmp, ops, outs) && |outs| == |ops|
    ensures Agrees(view, cmp, ops) && Answered(outs, ops, cmp) && keys == AllKeys(ops) && values == AllValues(ops, cmp)
  {
    assert ops[..|outs|] == ops;
    hide Agrees, Answered, AllKeys, AllValues;
  }

  /** Any run of calls on a new table. What it holds and answers is what the calls say; and
      everything handed over is in the table or was freed, as often as it was handed over. */
  method Run(table: Hashtable, ops: seq<Op>) returns (outs: seq<int>)
    requires table.Valid() && table.size == 0 && table.view == map[] && |ops| <= PRIMES[28]
    requires table.givenKeys == table.givenValues == multiset{} && table.freedKeys == table.freedValues == []
    modifies table, table.buckets, table.head`prev, table.head`next
    modifies table.order`value, table.order`prev, table.order`next
    ensures table.Valid() && Agrees(table.view, table.cmpKeys, ops)
    ensures |outs| == |ops| && Answered(outs, ops, table.cmpKeys)
    ensures table.givenKeys == AllKeys(ops) && table.givenValues == AllValues(ops, table.cmpKeys)
    ensures if table.freeKey
            then multiset(table.freedKeys) + multiset(table.view.Keys) == AllKeys(ops)
            else table.freedKeys == []
    ensures if table.freeValue
            then multiset(table.freedValues) + multiset(Values(table.order, table.view)) ==
                AllValues(ops, table.cmpKeys)
            else table.freedValues == []
  {
    hide Hashtable.Shape, Hashtable.Holds, Hashtable.Accounted, Hashtable.Alive, KeysOk, Held, Ran, Follows, Answer;
    hide Agrees, Answered, KeysIn, ValuesIn, AllKeys, AllValues;
    outs := [];
    Start(table.view, table.cmpKeys, ops);
    for i := 0 to |ops|
      invariant table.Valid() && table.size <= i == |outs|
      invariant Ran(table.view, table.givenKeys, table.givenValues, table.cmpKeys, ops, outs)
      invariant (table.freeKey || table.freedKeys == []) && (table.freeValue || table.freedValues == [])
      invariant table.buckets == old(table.buckets) || fresh(table.buckets)
      invariant forall j :: 0 <= j < |table.order| ==> table.order[j] in old(table.order) || fresh(table.order[j])
    {
      ghost var was, keys, values := table.view, table.givenKeys, table.givenValues;
      var out := Call(table, ops[i]);
      RanNext(was, keys, values, table.view, table.cmpKeys, ops, outs, out);
      outs := outs + [out];
    }
    End(table.view, table.givenKeys, table.givenValues, table.cmpKeys, ops, outs);
    LiveKeys(table);
  }

  /** In a table all that was handed over is live or freed; the live keys are those of the map. */
  lemma LiveKeys(table: Hashtable)
    requires table.Valid()
    ensures table.freeKey ==> multiset(table.freedKeys) + multiset(table.view.Keys) == table.givenKeys
    ensures table.freeValue ==>
              multiset(table.freedValues) + multiset(Values(table.order, table.view)) == table.givenValues
  {
    KeysOnce(table.order, table.view);
    hide Hashtable.Shape, KeysAre, Unique, Keys, Values;
  }

  lemma KeysOnce(s: seq<Link>, view: map<Ptr, Ptr>)
    requires KeysAre(s, view) && NoTwice(s)
    ensures multiset(Keys(s)) == multiset(view.Keys)
  {
    var ks := Keys(s);
    forall k ensures multiset(ks)[k] == multiset(view.Keys)[k] {
      Once(ks, k);
      if k in view {
        var l :| l in s && l.key == k;
        var i :| 0 <= i < |s| && s[i] == l;
        assert ks[i] == k;
      } else {
        assert forall i :: 0 <= i < |s| ==> ks[i] != k;
      }
    }
  }

  lemma {:induction false} Once(ks: seq<Ptr>, k: Ptr)
    requires forall i, j :: 0 <= i < j < |ks| ==> ks[i] != ks[j]
    ensures multiset(ks)[k] == if k in ks then 1 else 0
  {
    if ks != [] {
      var n := |ks| - 1;
      Once(ks[..n], k);
      assert ks == ks[..n] + [ks[n]];
    }
  }
}
