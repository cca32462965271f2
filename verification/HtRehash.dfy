/** What a rehash of src/nc_hashtable.c does to the order of the pairs, and so to an iteration
    that is under way. */
module HtRehash {
  import opened HtOrder
  import opened HtRing

  ghost predicate NoTwice(s: seq<Link>) { forall i, j :: 0 <= i < j < |s| ==> s[i] != s[j] }

  ghost predicate Before(s: seq<Link>, x: Link, y: Link) {
    exists a, b :: 0 <= a < b < |s| && s[a] == x && s[b] == y
  }

  /** The place of the first link of bucket b, or the length. */
  ghost function Lead(s: seq<Link>, n: nat, b: nat): (f: nat)
    requires n > 0
    ensures f <= |s| && (f < |s| ==> s[f].hash % n == b)
  {
    if s == [] then 0
    else
      var m := |s| - 1;
      var f := Lead(s[..m], n, b);
      if f < m then f else if s[m].hash % n == b then m else |s|
  }

  lemma LeadStep(s: seq<Link>, n: nat, b: nat)
    requires n > 0 && s != []
    ensures var m := |s| - 1;
            var f := Lead(s[..m], n, b);
            Lead(s, n, b) == if f < m then f else if s[m].hash % n == b then m else |s|
  {}

  lemma {:induction false} LeadIs(s: seq<Link>, n: nat, i: nat)
    requires n > 0 && i < |s|
    ensures Lead(s, n, s[i].hash % n) <= i
  {
    var m := |s| - 1;
    if i < m { LeadIs(s[..m], n, i); }
  }

  lemma {:induction false} NoLead(s: seq<Link>, n: nat, b: nat)
    requires n > 0 && forall i :: 0 <= i < |s| ==> s[i].hash % n != b
    ensures Lead(s, n, b) == |s|
  {
    if s != [] { NoLead(s[..|s| - 1], n, b); }
  }

  lemma InsertKeepsOrder(s: seq<Link>, p: nat, x: Link, y: Link, z: Link)
    requires p <= |s| && y != x && z != x
    ensures Before(s[..p] + [x] + s[p..], y, z) <==> Before(s, y, z)
  {
    var t := s[..p] + [x] + s[p..];
    if a, b :| 0 <= a < b < |s| && s[a] == y && s[b] == z {
      var a', b' := if a < p then a else a + 1, if b < p then b else b + 1;
      assert t[a'] == y && t[b'] == z;
    }
    if a, b :| 0 <= a < b < |t| && t[a] == y && t[b] == z {
      var a', b' := if a < p then a else a - 1, if b < p then b else b - 1;
      assert s[a'] == y && s[b'] == z;
    }
  }

  lemma InsertedAt(s: seq<Link>, p: nat, x: Link, b: nat)
    requires p <= |s| && x !in s && b < |s| && NoTwice(s)
    ensures var t := s[..p] + [x] + s[p..];
            NoTwice(t) && (Before(t, s[b], x) <==> b < p) && (Before(t, x, s[b]) <==> b >= p)
  {
    var t := s[..p] + [x] + s[p..];
    assert forall i :: 0 <= i < |s| ==> s[i] in s;
    assert t[p] == x && t[if b < p then b else b + 1] == s[b];
    NoTwiceMore(s, p, x);
    assert forall i :: 0 <= i < |t| && t[i] == x ==> i == p;
    assert forall i :: 0 <= i < |t| && t[i] == s[b] ==> i == if b < p then b else b + 1;
  }

  lemma NoTwiceMore(s: seq<Link>, p: nat, x: Link)
    requires p <= |s| && x !in s && NoTwice(s)
    ensures NoTwice(s[..p] + [x] + s[p..])
  {}

  lemma {:induction false} PlacedNoTwice(o: seq<Link>, n: nat)
    requires n > 0 && NoTwice(o)
    ensures NoTwice(Placed(o, n))
  {
    if o != [] {
      var m := |o| - 1;
      PlacedNoTwice(o[..m], n);
      PlacedElems(o[..m], n);
      var p := PlaceSplit(Placed(o[..m], n), o[m], n);
      NoTwiceMore(Placed(o[..m], n), p, o[m]);
    }
  }

  lemma Places(s: seq<Link>, a: nat, b: nat)
    requires NoTwice(s) && a < |s| && b < |s|
    ensures Before(s, s[a], s[b]) <==> a < b
  {
    assert forall i :: 0 <= i < |s| && s[i] == s[a] ==> i == a;
    assert forall i :: 0 <= i < |s| && s[i] == s[b] ==> i == b;
  }

  /** Threading anew puts the buckets in the order of their first links, and within each the
      links in reverse. */
  lemma {:induction false} PlacedOrder(o: seq<Link>, n: nat, i: nat, j: nat)
    requires n > 0 && NoTwice(o) && i < |o| && j < |o| && i != j
    ensures var f, g := Lead(o, n, o[i].hash % n), Lead(o, n, o[j].hash % n);
            Before(Placed(o, n), o[i], o[j]) <==> f < g || (f == g && j < i)
    decreases |o|, 1
  {
    var m := |o| - 1;
    if i < m && j < m {
      var s, x := Placed(o[..m], n), o[m];
      var p := PlaceSplit(s, x, n);
      PlacedOrder(o[..m], n, i, j);
      InsertKeepsOrder(s, p, x, o[i], o[j]);
      LeadIs(o[..m], n, i);
      LeadIs(o[..m], n, j);
    } else {
      LastOrder(o, n, if i < m then i else j);
      LeadsDiffer(o, n, i, j);
    }
  }

  lemma LeadsDiffer(o: seq<Link>, n: nat, i: nat, j: nat)
    requires n > 0 && i < |o| && j < |o|
    ensures Lead(o, n, o[i].hash % n) == Lead(o, n, o[j].hash % n) <==> o[i].hash % n == o[j].hash % n
  {
    LeadIs(o, n, i);
    LeadIs(o, n, j);
    hide Lead;
  }

  /** The last link goes in front of a link k of its bucket, or of one that starts later. */
  lemma {:induction false} LastOrder(o: seq<Link>, n: nat, k: nat)
    requires n > 0 && NoTwice(o) && k < |o| - 1
    ensures var m := |o| - 1;
            var f, g := Lead(o, n, o[k].hash % n), Lead(o, n, o[m].hash % n);
            && (Before(Placed(o, n), o[k], o[m]) <==> f < g)
            && (Before(Placed(o, n), o[m], o[k]) <==> g <= f)
    decreases |o|, 0
  {
    hide Place, First, Before, Lead;
    var m := |o| - 1;
    var s, x := Placed(o[..m], n), o[m];
    var p := PlaceSplit(s, x, n);
    PlacedNoTwice(o[..m], n);
    PlacedElems(o[..m], n);
    assert o[..m][k] in o[..m];
    var b :| 0 <= b < |s| && s[b] == o[k];
    FirstIs(s, n, x.hash % n);
    LeadStep(o, n, o[k].hash % n);
    LeadStep(o, n, x.hash % n);
    assert Placed(o, n) == s[..p] + [x] + s[p..];
    hide Placed, NoTwice;
    InsertedAt(s, p, x, b);
    LeadIs(o[..m], n, k);
    Side(o[..m], n, x.hash % n, s, p, k, b);
  }

  /** In s, the links of o threaded anew, link k is number b and bucket i starts at number p. */
  lemma {:induction false} Side(o: seq<Link>, n: nat, i: nat, s: seq<Link>, p: nat, k: nat, b: nat)
    requires n > 0 && NoTwice(o) && k < |o| && s == Placed(o, n) && b < |s| && s[b] == o[k]
    requires p <= |s| && First(s[..p], n, i) == null && (p < |s| ==> s[p].hash % n == i)
    ensures b < p <==> Lead(o, n, o[k].hash % n) < Lead(o, n, i)
    decreases |o|, 2
  {
    PlacedNoTwice(o, n);
    PlacedElems(o, n);
    FirstIs(s[..p], n, i);
    LeadIs(o, n, k);
    if p == |s| {
      hide Placed, First;
      assert s[..p] == s;
      forall l | 0 <= l < |o| ensures o[l].hash % n != i { assert o[l] in s; }
      NoLead(o, n, i);
    } else {
      assert s[p] in o;
      var q :| 0 <= q < |o| && o[q] == s[p];
      LeadIs(o, n, q);
      LeadsDiffer(o, n, k, q);
      if q != k {
        PlacedOrder(o, n, k, q);
        Places(s, b, p);
        hide Placed, First, Before, Lead;
        assert b < p ==> s[b] in s[..p];
      }
    }
  }

  /** An iteration that stands at pair i when the table is rehashed misses the pair j that was
      still ahead if and only if j's new bucket starts no later than that of i. */
  lemma RehashSkips(o: seq<Link>, n: nat, i: nat, j: nat)
    requires n > 0 && NoTwice(o) && i < j < |o|
    ensures Before(Placed(o, n), o[j], o[i]) <==> Lead(o, n, o[j].hash % n) <= Lead(o, n, o[i].hash % n)
  {
    PlacedOrder(o, n, j, i);
  }
}
