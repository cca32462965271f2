/** What a table of src/nc_hashtable.c stands for: a finite map from keys to values in which
    keys that the table's comparison calls equal are one key. */
module HtTable {
  import opened HtRing
  import opened Options

  type Cmp = (Ptr, Ptr) -> bool

  /** What the callers' two functions have to satisfy. */
  ghost predicate KeysOk(hash: Ptr -> nat, cmp: Cmp) {
    && (forall k :: cmp(k, k))
    && (forall k, l :: cmp(k, l) ==> cmp(l, k))
    && (forall k, l, m :: cmp(k, l) && cmp(l, m) ==> cmp(k, m))
    && forall k, l :: cmp(k, l) ==> hash(k) == hash(l)
  }

  /** No two stored keys are equal. */
  ghost predicate Unique(view: map<Ptr, Ptr>, cmp: Cmp) {
    forall k, l :: k in view && l in view && cmp(k, l) ==> k == l
  }

  /** The value stored for any key equal to k. */
  ghost function Lookup(view: map<Ptr, Ptr>, cmp: Cmp, k: Ptr): Option<Ptr> {
    if s: Ptr :| s in view && cmp(s, k) then Some(view[s]) else None
  }

  lemma LookupStored(view: map<Ptr, Ptr>, cmp: Cmp, hash: Ptr -> nat, k: Ptr, s: Ptr)
    requires KeysOk(hash, cmp) && Unique(view, cmp) && s in view && cmp(s, k)
    ensures Lookup(view, cmp, k) == Some(view[s])
  {
    assert forall u :: u in view && cmp(u, k) ==> u == s;
  }

  /** Storing under key, or under the key s equal to it that is stored already. */
  lemma SetLaw(view: map<Ptr, Ptr>, cmp: Cmp, hash: Ptr -> nat, key: Ptr, s: Ptr, v: Ptr)
    requires KeysOk(hash, cmp) && Unique(view, cmp) && cmp(s, key)
    requires s in view || (s == key && forall u <- view :: !cmp(u, key))
    ensures Unique(view[s := v], cmp)
    ensures forall k :: Lookup(view[s := v], cmp, k) == if cmp(key, k) then Some(v) else Lookup(view, cmp, k)
  {
    var view' := view[s := v];
    assert Unique(view', cmp);
    forall k ensures Lookup(view', cmp, k) == if cmp(key, k) then Some(v) else Lookup(view, cmp, k) {
      if cmp(key, k) {
        LookupStored(view', cmp, hash, k, s);
      } else if u: Ptr :| u in view && cmp(u, k) {
        LookupStored(view, cmp, hash, k, u);
        LookupStored(view', cmp, hash, k, u);
      }
    }
  }

  lemma DelLaw(view: map<Ptr, Ptr>, cmp: Cmp, hash: Ptr -> nat, key: Ptr, s: Ptr)
    requires KeysOk(hash, cmp) && Unique(view, cmp) && s in view && cmp(s, key)
    ensures Unique(view - {s}, cmp)
    ensures forall k :: Lookup(view - {s}, cmp, k) == if cmp(key, k) then None else Lookup(view, cmp, k)
  {
    var view' := view - {s};
    forall k ensures Lookup(view', cmp, k) == if cmp(key, k) then None else Lookup(view, cmp, k) {
      if u: Ptr :| u in view && cmp(u, k) {
        LookupStored(view, cmp, hash, k, u);
        if u != s { LookupStored(view', cmp, hash, k, u); }
      }
    }
  }

  // ---- the pairs of a table as a map

  /** The links of s hold exactly the keys of view, each in one link. */
  ghost predicate KeysAre(s: seq<Link>, view: map<Ptr, Ptr>) {
    && (forall l, m :: l in s && m in s && l.key == m.key ==> l == m)
    && (forall l <- s :: l.key in view)
    && forall k <- view :: exists l :: l in s && l.key == k
  }

  /** The same links in another order. */
  lemma SameKeys(s: seq<Link>, t: seq<Link>, view: map<Ptr, Ptr>)
    requires KeysAre(s, view) && forall l :: l in t <==> l in s
    ensures KeysAre(t, view)
  {
    forall k <- view ensures exists l :: l in t && l.key == k {
      var l :| l in s && l.key == k;
      assert l in t;
    }
  }

  lemma ButLast(s: seq<Link>, view: map<Ptr, Ptr>)
    requires KeysAre(s, view) && s != [] && forall i, j :: 0 <= i < j < |s| ==> s[i] != s[j]
    ensures s[|s| - 1].key in view && KeysAre(s[..|s| - 1], view - {s[|s| - 1].key})
  {
    var t, x := s[..|s| - 1], s[|s| - 1];
    assert forall l :: l in s <==> l in t || l == x;
    assert x !in t;
  }

  /** As many pairs as keys. */
  lemma {:induction false} SizeIs(s: seq<Link>, view: map<Ptr, Ptr>)
    requires KeysAre(s, view) && forall i, j :: 0 <= i < j < |s| ==> s[i] != s[j]
    ensures |s| == |view|
  {
    if s == [] {
      assert view == map[];
    } else {
      var k := s[|s| - 1].key;
      ButLast(s, view);
      SizeIs(s[..|s| - 1], view - {k});
      hide KeysAre;
      assert view.Keys == (view - {k}).Keys + {k};
    }
  }

  ghost function Keys(s: seq<Link>): (r: seq<Ptr>)
    ensures |r| == |s| && forall i :: 0 <= i < |s| ==> r[i] == s[i].key
  {
    seq(|s|, i requires 0 <= i < |s| => s[i].key)
  }

  ghost function ValueOf(l: Link, view: map<Ptr, Ptr>): Ptr {
    if l.key in view then view[l.key] else NULL
  }

  ghost function Values(s: seq<Link>, view: map<Ptr, Ptr>): (r: seq<Ptr>)
    ensures |r| == |s| && forall i :: 0 <= i < |s| ==> r[i] == ValueOf(s[i], view)
  {
    seq(|s|, i requires 0 <= i < |s| => ValueOf(s[i], view))
  }

  /** One link x more, between a and c. */
  lemma BagAround(a: seq<Link>, x: Link, c: seq<Link>, view: map<Ptr, Ptr>)
    ensures multiset(Keys(a + [x] + c)) == multiset(Keys(a + c)) + multiset{x.key}
    ensures multiset(Values(a + [x] + c, view)) == multiset(Values(a + c, view)) + multiset{ValueOf(x, view)}
  {
    var k, v := Keys(a + [x] + c), Values(a + [x] + c, view);
    MiddleOut(k, |a|, Keys(a + c));
    MiddleOut(v, |a|, Values(a + c, view));
  }

  lemma MiddleOut(s: seq<Ptr>, p: nat, t: seq<Ptr>)
    requires p < |s| && |t| == |s| - 1
    requires forall i :: 0 <= i < |t| ==> t[i] == s[if i < p then i else i + 1]
    ensures multiset(s) == multiset(t) + multiset{s[p]}
  {
    assert s == s[..p] + [s[p]] + s[p + 1..];
    assert t == s[..p] + s[p + 1..];
  }

  ghost function Mapped(s: seq<Link>, f: Link -> Ptr): (r: seq<Ptr>)
    ensures |r| == |s| && forall i :: 0 <= i < |s| ==> r[i] == f(s[i])
  {
    seq(|s|, i requires 0 <= i < |s| => f(s[i]))
  }

  lemma Counterpart(s: seq<Link>, t: seq<Link>) returns (p: nat)
    requires multiset(s) == multiset(t) && s != []
    ensures p < |t| && t[p] == s[0] && multiset(t[..p] + t[p + 1..]) == multiset(s[1..])
  {
    assert s == [s[0]] + s[1..];
    assert s[0] in multiset(s);
    p :| 0 <= p < |t| && t[p] == s[0];
    assert t == t[..p] + [t[p]] + t[p + 1..];
    assert multiset(t) == multiset(t[..p]) + multiset{t[p]} + multiset(t[p + 1..]);
    assert multiset(s) == multiset{s[0]} + multiset(s[1..]);
    assert multiset(t[..p] + t[p + 1..]) == multiset(t[..p]) + multiset(t[p + 1..]);
    forall l: Link ensures multiset(t[..p] + t[p + 1..])[l] == multiset(s[1..])[l] {
      assert multiset(t)[l] == multiset(s)[l];
    }
  }

  lemma {:induction false} MappedPermuted(s: seq<Link>, t: seq<Link>, f: Link -> Ptr)
    requires multiset(s) == multiset(t)
    ensures multiset(Mapped(s, f)) == multiset(Mapped(t, f))
    decreases |s|
  {
    if s == [] {
      assert |multiset(t)| == 0;
    } else {
      var p := Counterpart(s, t);
      var u := t[..p] + t[p + 1..];
      MappedPermuted(s[1..], u, f);
      MiddleOut(Mapped(t, f), p, Mapped(u, f));
      MiddleOut(Mapped(s, f), 0, Mapped(s[1..], f));
    }
  }

  /** The listed keys and values in another order. */
  lemma BagPermuted(s: seq<Link>, t: seq<Link>, view: map<Ptr, Ptr>)
    requires multiset(s) == multiset(t)
    ensures multiset(Keys(s)) == multiset(Keys(t))
    ensures multiset(Values(s, view)) == multiset(Values(t, view))
  {
    var f, g := (l: Link) => l.key, (l: Link) => ValueOf(l, view);
    MappedPermuted(s, t, f);
    MappedPermuted(s, t, g);
    assert Keys(s) == Mapped(s, f) && Keys(t) == Mapped(t, f);
    assert Values(s, view) == Mapped(s, g) && Values(t, view) == Mapped(t, g);
  }

  /** Writing one value. */
  lemma BagUpdate(s: seq<Link>, p: nat, view: map<Ptr, Ptr>, v: Ptr)
    requires p < |s| && KeysAre(s, view) && forall i, j :: 0 <= i < j < |s| ==> s[i] != s[j]
    ensures KeysAre(s, view[s[p].key := v])
    ensures multiset(Values(s, view[s[p].key := v])) ==
            multiset(Values(s, view)) - multiset{view[s[p].key]} + multiset{v}
  {
    KeepKeys(s, p, view, v);
    hide KeysAre;
    assert Values(s, view[s[p].key := v]) == Values(s, view)[p := v];
  }

  lemma KeepKeys(s: seq<Link>, p: nat, view: map<Ptr, Ptr>, v: Ptr)
    requires p < |s| && KeysAre(s, view) && forall i, j :: 0 <= i < j < |s| ==> s[i] != s[j]
    ensures var view' := view[s[p].key := v];
            KeysAre(s, view') && (forall l <- s :: l.key in view && l.key in view')
            && forall i :: 0 <= i < |s| && i != p ==> view'[s[i].key] == view[s[i].key]
  {
    var view' := view[s[p].key := v];
    forall k <- view' ensures exists l :: l in s && l.key == k {
      if k == s[p].key { assert s[p] in s; }
    }
  }

  /** A link with a new key, between a and c. */
  lemma KeysPlus(a: seq<Link>, x: Link, c: seq<Link>, view: map<Ptr, Ptr>, v: Ptr)
    requires KeysAre(a + c, view) && x.key !in view
    ensures KeysAre(a + [x] + c, view[x.key := v])
    ensures forall l <- a + c :: l.key in view && view[x.key := v][l.key] == view[l.key]
    ensures multiset(Keys(a + [x] + c)) == multiset(Keys(a + c)) + multiset{x.key}
    ensures multiset(Values(a + [x] + c, view[x.key := v])) == multiset(Values(a + c, view)) + multiset{v}
  {
    var s, view' := a + [x] + c, view[x.key := v];
    assert forall l :: l in s <==> l in a + c || l == x;
    forall k <- view' ensures exists l :: l in s && l.key == k {
      if k != x.key {
        var l :| l in a + c && l.key == k;
        assert l in s;
      } else {
        assert x in s;
      }
    }
    BagAround(a, x, c, view');
    assert Values(a + c, view') == Values(a + c, view);
  }

  /** ... and without it again. */
  lemma KeysMinus(a: seq<Link>, x: Link, c: seq<Link>, view: map<Ptr, Ptr>)
    requires KeysAre(a + [x] + c, view) && x !in a + c
    ensures KeysAre(a + c, view - {x.key})
    ensures forall l <- a + c :: l.key in view - {x.key} && (view - {x.key})[l.key] == view[l.key]
    ensures x.key in view
    ensures multiset(Keys(a + [x] + c)) == multiset(Keys(a + c)) + multiset{x.key}
    ensures multiset(Values(a + [x] + c, view)) == multiset(Values(a + c, view - {x.key})) + multiset{view[x.key]}
  {
    var s, view' := a + [x] + c, view - {x.key};
    assert forall l :: l in s <==> l in a + c || l == x;
    forall k <- view' ensures exists l :: l in a + c && l.key == k {
      var l :| l in s && l.key == k;
      assert l in a + c;
    }
    BagAround(a, x, c, view);
    assert Values(a + c, view') == Values(a + c, view);
  }
}
