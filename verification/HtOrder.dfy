/** Buckets of src/nc_hashtable.c as windows onto the common list: which links a bucket sees
    is read off the order of the list and the hashes. */
module HtOrder {
  import opened HtRing

  datatype Bucket = Bucket(first: Link, last: Link)

  ghost function First(s: seq<Link>, n: nat, b: nat): Link?
    requires n > 0
  {
    if s == [] then null else if s[0].hash % n == b then s[0] else First(s[1..], n, b)
  }

  ghost function Last(s: seq<Link>, n: nat, b: nat): Link?
    requires n > 0
  {
    if s == [] then null
    else if s[|s| - 1].hash % n == b then s[|s| - 1] else Last(s[..|s| - 1], n, b)
  }

  /** Links of one bucket stand next to each other. */
  ghost predicate Grouped(s: seq<Link>, n: nat)
    requires n > 0
  {
    forall i, j, k :: 0 <= i < j < k < |s| && s[i].hash % n == s[k].hash % n ==> s[j].hash % n == s[i].hash % n
  }

  /** bucket is the window number b: from the first to the last link with that index, and
      the head twice when there is none. */
  ghost predicate Window(bucket: Bucket, s: seq<Link>, n: nat, b: nat, head: Link)
    requires n > 0
  {
    if First(s, n, b) == null then bucket == Bucket(head, head)
    else bucket.first == First(s, n, b) && bucket.last == Last(s, n, b)
  }

  ghost predicate Windows(bs: seq<Bucket>, s: seq<Link>, n: nat, head: Link)
    requires n > 0
  {
    |bs| == n && forall b :: 0 <= b < n ==> Window(bs[b], s, n, b, head)
  }

  /** Where a new link goes: before the first one of its bucket, or at the end. */
  ghost function Place(s: seq<Link>, x: Link, n: nat): seq<Link>
    requires n > 0
  {
    if s == [] || s[0].hash % n == x.hash % n then [x] + s else [s[0]] + Place(s[1..], x, n)
  }

  lemma {:induction false} FirstSplit(a: seq<Link>, c: seq<Link>, n: nat, b: nat)
    requires n > 0
    ensures First(a + c, n, b) == if First(a, n, b) != null then First(a, n, b) else First(c, n, b)
  {
    if a == [] {
      assert a + c == c;
    } else {
      FirstSplit(a[1..], c, n, b);
      assert (a + c)[1..] == a[1..] + c;
    }
  }

  lemma {:induction false} LastSplit(a: seq<Link>, c: seq<Link>, n: nat, b: nat)
    requires n > 0
    ensures Last(a + c, n, b) == if Last(c, n, b) != null then Last(c, n, b) else Last(a, n, b)
  {
    if c == [] {
      assert a + c == a;
    } else {
      LastSplit(a, c[..|c| - 1], n, b);
      assert (a + c)[..|a + c| - 1] == a + c[..|c| - 1];
    }
  }

  /** First and Last are there or missing together, and find a link of the bucket. */
  lemma {:induction false} FirstIs(s: seq<Link>, n: nat, b: nat)
    requires n > 0
    ensures First(s, n, b) != null ==> First(s, n, b) in s && First(s, n, b).hash % n == b
    ensures First(s, n, b) == null ==> forall l <- s :: l.hash % n != b
  {
    if s != [] { FirstIs(s[1..], n, b); }
  }

  lemma {:induction false} LastIs(s: seq<Link>, n: nat, b: nat)
    requires n > 0
    ensures Last(s, n, b) != null ==> Last(s, n, b) in s && Last(s, n, b).hash % n == b
    ensures Last(s, n, b) == null ==> forall l <- s :: l.hash % n != b
  {
    if s != [] {
      LastIs(s[..|s| - 1], n, b);
      assert forall l <- s :: l in s[..|s| - 1] || l == s[|s| - 1];
    }
  }

  lemma BothOrNone(s: seq<Link>, n: nat, b: nat)
    requires n > 0
    ensures First(s, n, b) == null <==> Last(s, n, b) == null
  {
    FirstIs(s, n, b);
    LastIs(s, n, b);
  }

  lemma One(x: Link, n: nat, b: nat)
    requires n > 0
    ensures First([x], n, b) == Last([x], n, b) == if x.hash % n == b then x else null
  {
    assert [x][1..] == [] && [x][..0] == [];
  }

  lemma {:induction false} PlaceSplit(s: seq<Link>, x: Link, n: nat) returns (p: nat)
    requires n > 0
    ensures p <= |s| && Place(s, x, n) == s[..p] + [x] + s[p..]
    ensures First(s[..p], n, x.hash % n) == null
    ensures if p == |s| then First(s, n, x.hash % n) == null else First(s, n, x.hash % n) == s[p]
  {
    p := 0;
    if s != [] && s[0].hash % n != x.hash % n {
      var q := PlaceSplit(s[1..], x, n);
      p := q + 1;
      assert s[..p] + [x] + s[p..] == [s[0]] + (s[1..][..q] + [x] + s[1..][q..]);
      assert s[..p][1..] == s[1..][..q];
    }
  }

  /** insert_to_bucket keeps every window right ... */
  lemma PlaceWindows(bs: seq<Bucket>, s: seq<Link>, x: Link, n: nat, head: Link)
    requires n > 0 && Windows(bs, s, n, head)
    ensures var b := x.hash % n;
            var w := if First(s, n, b) == null then Bucket(x, x) else Bucket(x, bs[b].last);
            Windows(bs[b := w], Place(s, x, n), n, head)
  {
    var p := PlaceSplit(s, x, n);
    var a, c := s[..p], s[p..];
    assert s == a + c;
    forall b | 0 <= b < n
      ensures First(a + [x] + c, n, b) == (if b == x.hash % n then x else First(s, n, b))
      ensures Last(a + [x] + c, n, b) == (if b == x.hash % n && First(s, n, b) == null then x else Last(s, n, b))
    {
      AroundOne(a, x, c, n, b);
      BothOrNone(a, n, b);
      BothOrNone(c, n, b);
      BothOrNone(s, n, b);
    }
  }

  lemma AroundOne(a: seq<Link>, x: Link, c: seq<Link>, n: nat, b: nat)
    requires n > 0
    ensures First(a + c, n, b) == if First(a, n, b) != null then First(a, n, b) else First(c, n, b)
    ensures Last(a + c, n, b) == if Last(c, n, b) != null then Last(c, n, b) else Last(a, n, b)
    ensures First(a + [x] + c, n, b) ==
            if First(a, n, b) != null then First(a, n, b) else if x.hash % n == b then x else First(c, n, b)
    ensures Last(a + [x] + c, n, b) ==
            if Last(c, n, b) != null then Last(c, n, b) else if x.hash % n == b then x else Last(a, n, b)
  {
    FirstSplit(a, c, n, b);
    LastSplit(a, c, n, b);
    FirstSplit(a + [x], c, n, b);
    FirstSplit(a, [x], n, b);
    LastSplit(a + [x], c, n, b);
    LastSplit(a, [x], n, b);
    One(x, n, b);
  }

  /** ... and the links of a bucket together. */
  lemma PlaceGrouped(s: seq<Link>, x: Link, n: nat)
    requires n > 0 && Grouped(s, n)
    ensures Grouped(Place(s, x, n), n)
  {
    var p := PlaceSplit(s, x, n);
    var t := s[..p] + [x] + s[p..];
    FirstIs(s[..p], n, x.hash % n);
    FirstIs(s, n, x.hash % n);
    assert forall i :: 0 <= i < p ==> s[i] == s[..p][i];
    forall i, j, k | 0 <= i < j < k < |t| && t[i].hash % n == t[k].hash % n ensures t[j].hash % n == t[i].hash % n {
      var i', k' := if i <= p then i else i - 1, if k <= p then k else k - 1;
    }
  }

  /** Within a bucket the neighbours of a link are its predecessor and successor. */
  lemma Neighbours(s: seq<Link>, p: nat, n: nat)
    requires n > 0 && p < |s| && Grouped(s, n)
    ensures var b := s[p].hash % n;
            && (Last(s[..p], n, b) != null ==> p > 0 && Last(s[..p], n, b) == s[p - 1])
            && (First(s[p + 1..], n, b) != null ==> p + 1 < |s| && First(s[p + 1..], n, b) == s[p + 1])
  {
    var b, a, c := s[p].hash % n, s[..p], s[p + 1..];
    LastIs(a, n, b);
    FirstIs(c, n, b);
    if Last(a, n, b) != null {
      var i :| 0 <= i < p && a[i] == Last(a, n, b);
      assert s[i].hash % n == s[p].hash % n;
      assert a[p - 1].hash % n == b;
    }
    if First(c, n, b) != null {
      var i :| 0 <= i < |c| && c[i] == First(c, n, b);
      assert s[p + 1 + i].hash % n == s[p].hash % n;
      assert c[0].hash % n == b;
    }
  }

  /** The window of a bucket after its link x = s[p] is gone. */
  ghost function Shrunk(w: Bucket, x: Link, before: Link, after: Link, head: Link): Bucket {
    if w.first == x && w.last == x then Bucket(head, head)
    else if w.first == x then w.(first := after)
    else if w.last == x then w.(last := before)
    else w
  }

  /** Taking a link out: the window loses it at the end it stands at. */
  lemma RemoveWindows(bs: seq<Bucket>, s: seq<Link>, p: nat, n: nat, head: Link)
    requires n > 0 && p < |s| && Windows(bs, s, n, head) && Grouped(s, n) && Different(head, s)
    ensures var b := s[p].hash % n;
            var now := Shrunk(bs[b], s[p], Nth(head, s, p), Nth(head, s, p + 2), head);
            Windows(bs[b := now], s[..p] + s[p + 1..], n, head)
  {
    var x, a, c := s[p], s[..p], s[p + 1..];
    var b := x.hash % n;
    assert s == a + [x] + c;
    AroundOne(a, x, c, n, b);
    BothOrNone(a, n, b);
    BothOrNone(c, n, b);
    Neighbours(s, p, n);
    LastIs(c, n, b);
    FirstIs(a, n, b);
    assert x !in a && x !in c;
    assert Window(bs[b], s, n, b, head);
    forall b' | 0 <= b' < n && b' != b
      ensures First(a + c, n, b') == First(s, n, b') && Last(a + c, n, b') == Last(s, n, b')
    {
      AroundOne(a, x, c, n, b');
    }
  }

  lemma RemoveGrouped(s: seq<Link>, p: nat, n: nat)
    requires n > 0 && p < |s| && Grouped(s, n)
    ensures Grouped(s[..p] + s[p + 1..], n)
  {
    var t := s[..p] + s[p + 1..];
    assert forall i :: 0 <= i < |t| ==> t[i] == s[if i < p then i else i + 1];
  }

  /** What a walk through the window of a bucket meets: everything of that bucket. */
  lemma {:induction false} Span(s: seq<Link>, n: nat, b: nat) returns (lo: nat, hi: nat)
    requires n > 0 && First(s, n, b) != null
    ensures lo <= hi < |s| && s[lo] == First(s, n, b) && s[hi] == Last(s, n, b)
    ensures forall i :: 0 <= i < |s| && s[i].hash % n == b ==> lo <= i <= hi
  {
    lo := FirstAt(s, n, b);
    BothOrNone(s, n, b);
    hi := LastAt(s, n, b);
  }

  lemma {:induction false} FirstAt(s: seq<Link>, n: nat, b: nat) returns (lo: nat)
    requires n > 0 && First(s, n, b) != null
    ensures lo < |s| && s[lo] == First(s, n, b) && s[lo].hash % n == b
    ensures forall i :: 0 <= i < lo ==> s[i].hash % n != b
  {
    lo := 0;
    if s[0].hash % n != b {
      lo := FirstAt(s[1..], n, b);
      lo := lo + 1;
    }
  }

  lemma {:induction false} LastAt(s: seq<Link>, n: nat, b: nat) returns (hi: nat)
    requires n > 0 && Last(s, n, b) != null
    ensures hi < |s| && s[hi] == Last(s, n, b) && s[hi].hash % n == b
    ensures forall i :: hi < i < |s| ==> s[i].hash % n != b
  {
    hi := |s| - 1;
    if s[hi].hash % n != b {
      hi := LastAt(s[..hi], n, b);
    }
  }

  // ---- rehashing

  /** The list built by placing the links of s one after another. */
  ghost function Placed(s: seq<Link>, n: nat): seq<Link>
    requires n > 0
  {
    if s == [] then [] else Place(Placed(s[..|s| - 1], n), s[|s| - 1], n)
  }

  lemma {:induction false} PlacedGrouped(s: seq<Link>, n: nat)
    requires n > 0
    ensures Grouped(Placed(s, n), n)
  {
    if s != [] {
      PlacedGrouped(s[..|s| - 1], n);
      PlaceGrouped(Placed(s[..|s| - 1], n), s[|s| - 1], n);
    }
  }

  lemma {:induction false} PlaceSame(s: seq<Link>, x: Link, n: nat)
    requires n > 0
    ensures multiset(Place(s, x, n)) == multiset(s) + multiset{x} && |Place(s, x, n)| == |s| + 1
  {
    if s != [] && s[0].hash % n != x.hash % n {
      PlaceSame(s[1..], x, n);
      assert s == [s[0]] + s[1..];
    }
  }

  /** Rehashing loses no pair and invents none. */
  lemma {:induction false} PlacedSame(s: seq<Link>, n: nat)
    requires n > 0
    ensures multiset(Placed(s, n)) == multiset(s) && |Placed(s, n)| == |s|
  {
    if s != [] {
      var t := s[..|s| - 1];
      PlacedSame(t, n);
      PlaceSame(Placed(t, n), s[|s| - 1], n);
      assert s == t + [s[|s| - 1]];
    }
  }

  lemma PlacedElems(s: seq<Link>, n: nat)
    requires n > 0
    ensures forall l :: l in Placed(s, n) <==> l in s
  {
    PlacedSame(s, n);
    assert forall l :: l in Placed(s, n) <==> l in multiset(Placed(s, n));
    assert forall l :: l in s <==> l in multiset(s);
  }

  lemma PlaceElems(s: seq<Link>, x: Link, n: nat)
    requires n > 0
    ensures forall l :: l in Place(s, x, n) <==> l in s || l == x
  {
    PlaceSame(s, x, n);
    assert forall l :: l in Place(s, x, n) <==> l in multiset(Place(s, x, n));
    assert forall l :: l in s <==> l in multiset(s);
  }
}
