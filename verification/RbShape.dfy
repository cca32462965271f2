/** The values behind src/nc_rbtree.c: what a tree looks like, seen from one of its nodes.

    The C code walks up and down a heap of nodes. Here a position in a tree is a pair of a
    focus (the subtree hanging at the position) and a context (the path back to the root,
    innermost step first, each step with the subtree on its other side). The red-black laws,
    the in-order listing and the stable sorted sequence that the tree stands for are stated
    on these values; RbTree ties them to the heap. */
module RbShape {
  import opened Words

  datatype Side = L | R

  datatype Tree<X> = Leaf | Bin(l: Tree<X>, x: X, key: int, red: bool, r: Tree<X>)

  /** Up(L, x, ...) says: the hole is the left child of x, and sib is x's right child. */
  datatype Ctx<X> = Top | Up(hole: Side, x: X, key: int, red: bool, sib: Tree<X>, up: Ctx<X>)

  datatype Entry<X> = Entry(x: X, key: int)

  ghost function Join<X>(s: Side, t: Tree<X>, x: X, key: int, red: bool, sib: Tree<X>): Tree<X> {
    if s == L then Bin(t, x, key, red, sib) else Bin(sib, x, key, red, t)
  }

  ghost function Plug<X>(c: Ctx<X>, t: Tree<X>): Tree<X> {
    match c
    case Top => t
    case Up(s, x, k, red, sib, up) => Plug(up, Join(s, t, x, k, red, sib))
  }

  /** The steps of `inner` followed by those of `outer`. */
  ghost function Append<X>(inner: Ctx<X>, outer: Ctx<X>): Ctx<X> {
    match inner
    case Top => outer
    case Up(s, x, k, red, sib, up) => Up(s, x, k, red, sib, Append(up, outer))
  }

  // ---- nodes

  ghost function Elems<X>(t: Tree<X>): set<X> {
    if t.Leaf? then {} else Elems(t.l) + {t.x} + Elems(t.r)
  }

  ghost function ElemsC<X>(c: Ctx<X>): set<X> {
    if c.Top? then {} else {c.x} + Elems(c.sib) + ElemsC(c.up)
  }

  ghost predicate Distinct<X>(t: Tree<X>) {
    t.Bin? ==>
      && t.x !in Elems(t.l) && t.x !in Elems(t.r) && Elems(t.l) !! Elems(t.r)
      && Distinct(t.l) && Distinct(t.r)
  }

  ghost predicate DistinctC<X>(c: Ctx<X>) {
    c.Up? ==>
      && c.x !in Elems(c.sib) && c.x !in ElemsC(c.up) && Elems(c.sib) !! ElemsC(c.up)
      && Distinct(c.sib) && DistinctC(c.up)
  }

  ghost predicate Apart<X>(c: Ctx<X>, t: Tree<X>) {
    Distinct(t) && DistinctC(c) && Elems(t) !! ElemsC(c)
  }

  lemma {:induction false} PlugElems<X>(c: Ctx<X>, t: Tree<X>)
    ensures Elems(Plug(c, t)) == ElemsC(c) + Elems(t)
    ensures Distinct(Plug(c, t)) <==> Apart(c, t)
  {
    if c.Up? {
      PlugElems(c.up, Join(c.hole, t, c.x, c.key, c.red, c.sib));
    }
  }

  lemma {:induction false} AppendElems<X>(inner: Ctx<X>, outer: Ctx<X>)
    ensures ElemsC(Append(inner, outer)) == ElemsC(inner) + ElemsC(outer)
    ensures DistinctC(Append(inner, outer)) <==>
            DistinctC(inner) && DistinctC(outer) && ElemsC(inner) !! ElemsC(outer)
  {
    if inner.Up? {
      AppendElems(inner.up, outer);
    }
  }

  lemma {:induction false} PlugAppend<X>(inner: Ctx<X>, outer: Ctx<X>, t: Tree<X>)
    ensures Plug(Append(inner, outer), t) == Plug(outer, Plug(inner, t))
  {
    if inner.Up? {
      PlugAppend(inner.up, outer, Join(inner.hole, t, inner.x, inner.key, inner.red, inner.sib));
    }
  }

  // ---- in-order listing

  ghost function Inorder<X>(t: Tree<X>): seq<Entry<X>> {
    if t.Leaf? then [] else Inorder(t.l) + [Entry(t.x, t.key)] + Inorder(t.r)
  }

  /** What the context lists before and after the hole. */
  ghost function Before<X>(c: Ctx<X>): seq<Entry<X>> {
    match c
    case Top => []
    case Up(L, _, _, _, _, up) => Before(up)
    case Up(R, x, k, _, sib, up) => Before(up) + Inorder(sib) + [Entry(x, k)]
  }

  ghost function After<X>(c: Ctx<X>): seq<Entry<X>> {
    match c
    case Top => []
    case Up(L, x, k, _, sib, up) => [Entry(x, k)] + Inorder(sib) + After(up)
    case Up(R, _, _, _, _, up) => After(up)
  }

  lemma {:induction false} PlugInorder<X>(c: Ctx<X>, t: Tree<X>)
    ensures Inorder(Plug(c, t)) == Before(c) + Inorder(t) + After(c)
  {
    if c.Up? {
      var j := Join(c.hole, t, c.x, c.key, c.red, c.sib);
      var e := Entry(c.x, c.key);
      PlugInorder(c.up, j);
      assert Inorder(j) == if c.hole == L then Inorder(t) + [e] + Inorder(c.sib) else Inorder(c.sib) + [e] + Inorder(t);
      Regroup(Before(c.up), Inorder(t), e, Inorder(c.sib), After(c.up));
      hide Inorder;
    }
  }

  lemma Regroup<E>(b: seq<E>, t: seq<E>, e: E, s: seq<E>, a: seq<E>)
    ensures b + (t + [e] + s) + a == b + t + ([e] + s + a)
    ensures b + (s + [e] + t) + a == b + s + [e] + t + a
  {}

  ghost function Listing<X>(c: Ctx<X>, t: Tree<X>): seq<Entry<X>> { Inorder(Plug(c, t)) }

  /** Rebalancing one subtree without changing its listing does not change the whole. */
  lemma SameListing<X>(c: Ctx<X>, t: Tree<X>, t': Tree<X>)
    requires Inorder(t) == Inorder(t')
    ensures Listing(c, t) == Listing(c, t')
  {
    PlugInorder(c, t);
    PlugInorder(c, t');
  }

  lemma {:induction false} InorderElems<X>(t: Tree<X>)
    ensures forall i :: 0 <= i < |Inorder(t)| ==> Inorder(t)[i].x in Elems(t)
    ensures forall x :: x in Elems(t) ==> exists i :: 0 <= i < |Inorder(t)| && Inorder(t)[i].x == x
  {
    if t.Bin? {
      InorderElems(t.l);
      InorderElems(t.r);
      var s, a, b := Inorder(t), Inorder(t.l), Inorder(t.r);
      assert forall i :: 0 <= i < |b| ==> s[|a| + 1 + i] == b[i];
      assert forall i :: 0 <= i < |a| ==> s[i] == a[i];
      assert s[|a|].x == t.x;
    }
  }

  // ---- the sequence a tree stands for

  /** Put e right behind every entry whose key is at most its own. */
  ghost function Insert<X>(s: seq<Entry<X>>, e: Entry<X>): seq<Entry<X>> {
    if s == [] || e.key < s[0].key then [e] + s else [s[0]] + Insert(s[1..], e)
  }

  /** Take out the entry of node x, whatever its key. */
  ghost function Remove<X>(s: seq<Entry<X>>, x: X): seq<Entry<X>> {
    if s == [] then [] else if s[0].x == x then s[1..] else [s[0]] + Remove(s[1..], x)
  }

  ghost predicate Sorted<X>(s: seq<Entry<X>>) {
    forall i, j :: 0 <= i < j < |s| ==> s[i].key <= s[j].key
  }

  /** Sorted by key, and among equal keys by the time of insertion. */
  ghost predicate Stable<X>(s: seq<Entry<X>>, born: map<X, nat>) {
    && (forall i :: 0 <= i < |s| ==> s[i].x in born)
    && forall i, j :: 0 <= i < j < |s| ==>
         s[i].key < s[j].key || (s[i].key == s[j].key && born[s[i].x] < born[s[j].x])
  }

  lemma StableSorted<X>(s: seq<Entry<X>>, born: map<X, nat>)
    requires Stable(s, born)
    ensures Sorted(s)
  {}

  lemma {:induction false} InsertAt<X>(a: seq<Entry<X>>, b: seq<Entry<X>>, e: Entry<X>)
    requires forall i :: 0 <= i < |a| ==> a[i].key <= e.key
    requires forall i :: 0 <= i < |b| ==> e.key < b[i].key
    ensures Insert(a + b, e) == a + [e] + b
  {
    if a == [] {
      assert a + b == b;
      assert a + [e] + b == [e] + b;
    } else {
      assert (a + b)[1..] == a[1..] + b;
      InsertAt(a[1..], b, e);
      assert a + [e] + b == [a[0]] + (a[1..] + [e] + b);
    }
  }

  lemma {:induction false} RemoveAt<X>(a: seq<Entry<X>>, e: Entry<X>, b: seq<Entry<X>>)
    requires forall i :: 0 <= i < |a| ==> a[i].x != e.x
    ensures Remove(a + [e] + b, e.x) == a + b
  {
    var s := a + [e] + b;
    if a == [] {
      assert s[1..] == b == a + b;
    } else {
      assert s[1..] == a[1..] + [e] + b;
      RemoveAt(a[1..], e, b);
      assert a + b == [a[0]] + (a[1..] + b);
    }
  }

  lemma InFront<E>(x: E, t: seq<E>, m: nat, e: E)
    requires m <= |t|
    ensures var s := [x] + t; s[..m + 1] + [e] + s[m + 1..] == [x] + (t[..m] + [e] + t[m..])
  {}

  /** Where Insert puts e: the keys before it are at most its own, those after it are larger. */
  lemma {:induction false} InsertSplit<X>(s: seq<Entry<X>>, e: Entry<X>) returns (n: nat)
    requires Sorted(s)
    ensures n <= |s| && Insert(s, e) == s[..n] + [e] + s[n..]
    ensures forall i :: 0 <= i < n ==> s[i].key <= e.key
    ensures forall i :: n <= i < |s| ==> e.key < s[i].key
  {
    if s == [] || e.key < s[0].key {
      n := 0;
      assert s[..0] + [e] + s[0..] == [e] + s;
    } else {
      var t := s[1..];
      var m := InsertSplit(t, e);
      n := m + 1;
      hide Insert, Sorted;
      InFront(s[0], t, m, e);
      assert s == [s[0]] + t;
      forall i | 0 <= i < n ensures s[i].key <= e.key {
        if i > 0 { assert s[i] == t[i - 1]; }
      }
      forall i | n <= i < |s| ensures e.key < s[i].key { assert s[i] == t[i - 1]; }
    }
  }

  /** A node born later than every other goes to its stable place. */
  lemma InsertStable<X>(s: seq<Entry<X>>, e: Entry<X>, born: map<X, nat>, now: nat)
    requires Stable(s, born)
    requires forall i :: 0 <= i < |s| ==> s[i].x != e.x && born[s[i].x] < now
    ensures Stable(Insert(s, e), born[e.x := now])
  {
    var n := InsertSplit(s, e);
    forall i, j | 0 <= i < j <= |s|
      ensures var t, b := s[..n] + [e] + s[n..], born[e.x := now];
              t[i].key < t[j].key || (t[i].key == t[j].key && b[t[i].x] < b[t[j].x])
    {
      Inserted(s, n, e, i);
      Inserted(s, n, e, j);
      hide Insert;
    }
  }

  lemma Inserted<E>(s: seq<E>, n: nat, e: E, i: nat)
    requires n <= |s| && i <= |s|
    ensures (s[..n] + [e] + s[n..])[i] == if i < n then s[i] else if i == n then e else s[i - 1]
  {}

  lemma WithoutOne<E>(x: E, t: seq<E>, m: nat)
    requires m < |t|
    ensures var s := [x] + t; s[m + 1] == t[m] && s[..m + 1] + s[m + 2..] == [x] + (t[..m] + t[m + 1..])
  {}

  /** Remove takes out the first entry of x, if there is one. */
  lemma {:induction false} RemoveSplit<X>(s: seq<Entry<X>>, x: X) returns (n: nat)
    ensures n <= |s| && (forall i :: 0 <= i < n ==> s[i].x != x)
    ensures if n == |s| then Remove(s, x) == s else s[n].x == x && Remove(s, x) == s[..n] + s[n + 1..]
  {
    n := 0;
    if s != [] && s[0].x != x {
      var t := s[1..];
      var m := RemoveSplit(t, x);
      n := m + 1;
      assert Remove(s, x) == [s[0]] + Remove(t, x);
      hide Remove;
      assert s == [s[0]] + t;
      if m < |t| { WithoutOne(s[0], t, m); }
      forall i | 0 <= i < n ensures s[i].x != x {
        if i > 0 { assert s[i] == t[i - 1]; }
      }
    }
  }

  lemma RemoveStable<X>(s: seq<Entry<X>>, x: X, born: map<X, nat>)
    requires Stable(s, born)
    ensures Stable(Remove(s, x), born)
  {
    var n := RemoveSplit(s, x);
    var t := Remove(s, x);
    assert forall i :: 0 <= i < |t| ==> t[i] == s[if i < n then i else i + 1];
  }

  /** A new entry with this key belongs somewhere below the hole of c. */
  ghost predicate Brackets<X>(c: Ctx<X>, key: int) {
    && (forall i :: 0 <= i < |Before(c)| ==> Before(c)[i].key <= key)
    && forall i :: 0 <= i < |After(c)| ==> key < After(c)[i].key
  }

  /** One step of the descent: left of a larger key, right of any other. Only sortedness of
      the listing is used, so equal keys may sit on either side of each other. */
  lemma Descend<X>(c: Ctx<X>, t: Tree<X>, key: int)
    requires t.Bin? && Sorted(Inorder(Plug(c, t))) && Brackets(c, key)
    ensures key < t.key ==> Brackets(Up(L, t.x, t.key, t.red, t.r, c), key)
    ensures key >= t.key ==> Brackets(Up(R, t.x, t.key, t.red, t.l, c), key)
  {
    PlugInorder(c, t);
    hide Plug, Sorted;
    SortedAround(Before(c), Inorder(t.l), Entry(t.x, t.key), Inorder(t.r), After(c));
  }

  lemma SortedAround<X>(a: seq<Entry<X>>, l: seq<Entry<X>>, e: Entry<X>, r: seq<Entry<X>>, b: seq<Entry<X>>)
    requires Sorted(a + (l + [e] + r) + b)
    ensures forall i :: 0 <= i < |l| ==> l[i].key <= e.key
    ensures forall i :: 0 <= i < |r| ==> e.key <= r[i].key
  {
    var s, m := a + (l + [e] + r) + b, |a| + |l|;
    assert s[m] == e;
    forall i | 0 <= i < |l| ensures l[i].key <= e.key { assert l[i] == s[|a| + i]; }
    forall i | 0 <= i < |r| ensures e.key <= r[i].key { assert r[i] == s[m + 1 + i]; }
  }

  /** Hanging e at the place the descent ends at is Insert on the listing. */
  lemma InsertHere<X>(c: Ctx<X>, e: Entry<X>, red: bool)
    requires Brackets(c, e.key)
    ensures Inorder(Plug(c, Bin(Leaf, e.x, e.key, red, Leaf))) == Insert(Inorder(Plug(c, Leaf)), e)
  {
    var a, b := Before(c), After(c);
    PlugInorder(c, Leaf);
    PlugInorder(c, Bin(Leaf, e.x, e.key, red, Leaf));
    InsertAt(a, b, e);
    assert Inorder(Bin(Leaf, e.x, e.key, red, Leaf)) == [e];
    hide Plug, Insert, Before, After, Brackets;
    assert a + Inorder<X>(Leaf) == a;
  }

  // ---- red-black laws

  ghost predicate IsRed<X>(t: Tree<X>) { t.Bin? && t.red }

  /** Black nodes on the leftmost path; in a balanced tree, on every path. */
  ghost function BH<X>(t: Tree<X>): nat {
    if t.Leaf? then 0 else BH(t.l) + if t.red then 0 else 1
  }

  /** No red node has a red child and both sides of every node have equally many blacks. */
  ghost predicate Balanced<X>(t: Tree<X>) {
    t.Bin? ==>
      && Balanced(t.l) && Balanced(t.r) && BH(t.l) == BH(t.r)
      && (t.red ==> !IsRed(t.l) && !IsRed(t.r))
  }

  ghost predicate RedBlack<X>(t: Tree<X>) { Balanced(t) && !IsRed(t) }

  /** The context would be balanced with a subtree of h blacks at the hole. */
  ghost predicate BalancedC<X>(c: Ctx<X>, h: nat) {
    c.Up? ==>
      && Balanced(c.sib) && BH(c.sib) == h
      && (c.red ==> !IsRed(c.sib) && c.up.Up? && !c.up.red)
      && BalancedC(c.up, if c.red then h else h + 1)
  }

  /** May a red node sit at the hole? */
  ghost predicate TakesRed<X>(c: Ctx<X>) { c.Up? && !c.red }

  lemma {:induction false} PlugRedBlack<X>(c: Ctx<X>, t: Tree<X>)
    ensures RedBlack(Plug(c, t)) <==>
            Balanced(t) && BalancedC(c, BH(t)) && (IsRed(t) ==> TakesRed(c))
  {
    if c.Up? {
      PlugRedBlack(c.up, Join(c.hole, t, c.x, c.key, c.red, c.sib));
    }
  }

  // ---- what the fixups do to the laws

  /** In the middle of insertion: t is red and fine in itself, and everything around it would
      be fine if its root were black. The one possible defect is a red parent. */
  ghost predicate RedBelow<X>(c: Ctx<X>, t: Tree<X>) {
    IsRed(t) && Balanced(t) && BalancedC(c, BH(t))
  }

  /** A red leaf fits any empty place. */
  lemma LeafLaws<X>(c: Ctx<X>, e: Entry<X>)
    requires RedBlack(Plug(c, Leaf))
    ensures RedBelow(c, Bin(Leaf, e.x, e.key, true, Leaf))
  {
    PlugRedBlack(c, Leaf);
  }

  /** t, its red parent and the parent's black parent. */
  ghost predicate RedRed<X>(c: Ctx<X>, t: Tree<X>) {
    RedBelow(c, t) && c.Up? && c.red && c.up.Up? && !c.up.red
  }

  /** A red parent is never the root, so a red-red edge always has a grandparent, a black one. */
  lemma GrandparentExists<X>(c: Ctx<X>, t: Tree<X>)
    requires RedBelow(c, t) && c.Up? && c.red
    ensures RedRed(c, t)
  {}

  /** The subtree of the grandparent once parent and uncle are black and it is red. */
  ghost function PushRedUp<X>(c: Ctx<X>, t: Tree<X>): Tree<X>
    requires c.Up? && c.up.Up? && c.up.sib.Bin?
  {
    Join(c.up.hole, Join(c.hole, t, c.x, c.key, false, c.sib), c.up.x, c.up.key, true, c.up.sib.(red := false))
  }

  ghost function Join2<X>(c: Ctx<X>, t: Tree<X>): Tree<X>
    requires c.Up? && c.up.Up?
  {
    Join(c.up.hole, Join(c.hole, t, c.x, c.key, c.red, c.sib), c.up.x, c.up.key, c.up.red, c.up.sib)
  }

  lemma PushRedUpLaws<X>(c: Ctx<X>, t: Tree<X>)
    requires RedRed(c, t) && IsRed(c.up.sib)
    ensures RedBelow(c.up.up, PushRedUp(c, t))
    ensures SizeC(c.up.up) < SizeC(c) && Listing(c.up.up, PushRedUp(c, t)) == Listing(c, t)
  {
    SameListing(c.up.up, Join2(c, t), PushRedUp(c, t));
    assert Plug(c.up, Join(c.hole, t, c.x, c.key, c.red, c.sib)) == Plug(c.up.up, Join2(c, t));
    var p, u := Join(c.hole, t, c.x, c.key, false, c.sib), c.up.sib.(red := false);
    assert BalancedC(c.up, BH(t));
    assert Balanced(p) && BH(p) == BH(t) + 1;
    assert Balanced(u) && BH(u) == BH(t) + 1;
  }

  /** An inner red child, left-rotated at its parent, becomes an outer one. */
  lemma StraightenLLaws<X>(c: Ctx<X>, t: Tree<X>)
    requires RedRed(c, t) && c.hole == R
    ensures RedRed(Up(L, t.x, t.key, true, t.r, c.up), Bin(c.sib, c.x, c.key, true, t.l))
    ensures Listing(Up(L, t.x, t.key, true, t.r, c.up), Bin(c.sib, c.x, c.key, true, t.l)) == Listing(c, t)
  {
    var u, v := Bin(c.sib, c.x, c.key, true, t), Bin(Bin(c.sib, c.x, c.key, true, t.l), t.x, t.key, true, t.r);
    assert Inorder(u) == Inorder(v);
    SameListing(c.up, u, v);
  }

  lemma StraightenRLaws<X>(c: Ctx<X>, t: Tree<X>)
    requires RedRed(c, t) && c.hole == L
    ensures RedRed(Up(R, t.x, t.key, true, t.l, c.up), Bin(t.r, c.x, c.key, true, c.sib))
    ensures Listing(Up(R, t.x, t.key, true, t.l, c.up), Bin(t.r, c.x, c.key, true, c.sib)) == Listing(c, t)
  {
    var u, v := Bin(t, c.x, c.key, true, c.sib), Bin(t.l, t.x, t.key, true, Bin(t.r, c.x, c.key, true, c.sib));
    assert Inorder(u) == Inorder(v);
    SameListing(c.up, u, v);
  }

  /** An outer red child under a black uncle: the parent, black, takes the grandparent's place. */
  ghost function LiftParent<X>(c: Ctx<X>): Ctx<X>
    requires c.Up? && c.up.Up?
  {
    Up(c.hole, c.x, c.key, false, Join(if c.hole == L then R else L, c.up.sib, c.up.x, c.up.key, true, c.sib), c.up.up)
  }

  lemma LiftParentLaws<X>(c: Ctx<X>, t: Tree<X>)
    requires RedRed(c, t) && c.hole == c.up.hole && !IsRed(c.up.sib)
    ensures RedBelow(LiftParent(c), t) && TakesRed(LiftParent(c)) && Listing(LiftParent(c), t) == Listing(c, t)
  {
    var v := Join(c.hole, t, c.x, c.key, false, LiftParent(c).sib);
    assert Inorder(Join2(c, t)) == Inorder(v);
    SameListing(c.up.up, Join2(c, t), v);
    assert Plug(c.up, Join(c.hole, t, c.x, c.key, c.red, c.sib)) == Plug(c.up.up, Join2(c, t));
    assert BalancedC(c.up, BH(t));
    var g := LiftParent(c).sib;
    assert g.Bin? && Balanced(g) && BH(g) == BH(t);
  }

  /** Insertion ends at the root or below a black parent; a black root settles it. */
  lemma InsertEnds<X>(c: Ctx<X>, t: Tree<X>)
    requires RedBelow(c, t) && (c.Top? || TakesRed(c))
    ensures Plug(c, t).Bin? && RedBlack(Plug(c, t).(red := false))
  {
    PlugRedBlack(c, t);
    if c.Up? { PlugBin(c, t); }
  }

  lemma {:induction false} PlugBin<X>(c: Ctx<X>, t: Tree<X>)
    requires c.Up? || t.Bin?
    ensures Plug(c, t).Bin?
  {
    if c.Up? { PlugBin(c.up, Join(c.hole, t, c.x, c.key, c.red, c.sib)); }
  }

  // ---- the same for deletion; "near" is the side of the short subtree, "far" the other

  ghost function Near<X>(s: Side, w: Tree<X>): Tree<X>
    requires w.Bin?
  {
    if s == L then w.l else w.r
  }

  ghost function Far<X>(s: Side, w: Tree<X>): Tree<X>
    requires w.Bin?
  {
    if s == L then w.r else w.l
  }

  /** In the middle of deletion: t would be balanced with a black root, and the whole tree
      would be if t counted one black more. */
  ghost predicate Short<X>(c: Ctx<X>, t: Tree<X>) {
    && (t.Bin? ==> Balanced(t.l) && Balanced(t.r) && BH(t.l) == BH(t.r))
    && BalancedC(c, BH(t) + 1)
  }

  /** What the loop of the fixup looks at: a short, black subtree that is not the whole tree. */
  ghost predicate ShortBlack<X>(c: Ctx<X>, t: Tree<X>) { Short(c, t) && !IsRed(t) && c.Up? }

  /** The sibling of a short subtree is never the sentinel. */
  lemma SiblingExists<X>(c: Ctx<X>, t: Tree<X>)
    requires ShortBlack(c, t)
    ensures c.sib.Bin?
  {}

  /** A red sibling rotated above its black parent: the new sibling is its near child. */
  ghost function LowerParent<X>(c: Ctx<X>): Ctx<X>
    requires c.Up? && c.sib.Bin?
  {
    var s, w := c.hole, c.sib;
    Up(s, c.x, c.key, true, Near(s, w), Up(s, w.x, w.key, false, Far(s, w), c.up))
  }

  /** Both shapes of a rotation list the same. */
  lemma TurnListing<X>(s: Side, a: Tree<X>, x: X, kx: int, cx: bool, cx': bool, b: Tree<X>, y: X, ky: int,
        cy: bool, cy': bool, d: Tree<X>)
    ensures Inorder(Join(s, Join(s, a, x, kx, cx, b), y, ky, cy, d)) ==
            Inorder(Join(s, a, x, kx, cx', Join(s, b, y, ky, cy', d)))
  {
    var u, v := Join(s, Join(s, a, x, kx, cx, b), y, ky, cy, d), Join(s, a, x, kx, cx', Join(s, b, y, ky, cy', d));
    if s == L {
      assert Inorder(u) == Inorder(a) + [Entry(x, kx)] + Inorder(b) + [Entry(y, ky)] + Inorder(d);
    } else {
      assert Inorder(u) == Inorder(d) + [Entry(y, ky)] + Inorder(b) + [Entry(x, kx)] + Inorder(a);
    }
  }

  lemma LowerParentLaws<X>(c: Ctx<X>, t: Tree<X>)
    requires ShortBlack(c, t) && IsRed(c.sib)
    ensures ShortBlack(LowerParent(c), t) && !IsRed(LowerParent(c).sib)
    ensures SizeC(LowerParent(c)) == SizeC(c) && Listing(LowerParent(c), t) == Listing(c, t)
  {
    var s, w, c' := c.hole, c.sib, LowerParent(c);
    var v := Join(s, Join(s, t, c.x, c.key, true, Near(s, w)), w.x, w.key, false, Far(s, w));
    assert BalancedC(c'.up, BH(t) + 1);
    TurnListing(s, t, c.x, c.key, true, c.red, Near(s, w), w.x, w.key, false, w.red, Far(s, w));
    SameListing(c.up, Join(s, t, c.x, c.key, c.red, w), v);
    assert Plug(c'.up, Join(s, t, c.x, c.key, true, Near(s, w))) == Plug(c.up, v);
  }

  /** A black sibling with black children turns red: now the parent's subtree is short. */
  ghost function PaleSibling<X>(c: Ctx<X>, t: Tree<X>): Tree<X>
    requires c.Up? && c.sib.Bin?
  {
    Join(c.hole, t, c.x, c.key, c.red, c.sib.(red := true))
  }

  lemma PaleSiblingLaws<X>(c: Ctx<X>, t: Tree<X>)
    requires ShortBlack(c, t) && !IsRed(c.sib) && c.sib.Bin? && !IsRed(c.sib.l) && !IsRed(c.sib.r)
    ensures Short(c.up, PaleSibling(c, t))
    ensures SizeC(c.up) < SizeC(c) && Listing(c.up, PaleSibling(c, t)) == Listing(c, t)
  {
    SameListing(c.up, Join(c.hole, t, c.x, c.key, c.red, c.sib), PaleSibling(c, t));
  }

  /** A red near child of a black sibling, rotated above it, gives the sibling a red far child. */
  ghost function TurnSibling<X>(c: Ctx<X>): Ctx<X>
    requires c.Up? && c.sib.Bin? && Near(c.hole, c.sib).Bin?
  {
    var s, w := c.hole, c.sib;
    var n := Near(s, w);
    c.(sib := Join(s, Near(s, n), n.x, n.key, false, Join(s, Far(s, n), w.x, w.key, true, Far(s, w))))
  }

  /** A black sibling whose far child is red. */
  ghost predicate FarRed<X>(c: Ctx<X>, t: Tree<X>) {
    ShortBlack(c, t) && c.sib.Bin? && !c.sib.red && IsRed(Far(c.hole, c.sib))
  }

  lemma TurnSiblingLaws<X>(c: Ctx<X>, t: Tree<X>)
    requires ShortBlack(c, t) && c.sib.Bin? && !c.sib.red && IsRed(Near(c.hole, c.sib)) && !IsRed(Far(c.hole, c.sib))
    ensures FarRed(TurnSibling(c), t) && Listing(TurnSibling(c), t) == Listing(c, t)
  {
    var s, w, w' := c.hole, c.sib, TurnSibling(c).sib;
    var n := Near(s, w);
    TurnListing(s, Near(s, n), n.x, n.key, n.red, false, Far(s, n), w.x, w.key, w.red, true, Far(s, w));
    SameListing(c.up, Join(s, t, c.x, c.key, c.red, w), Join(s, t, c.x, c.key, c.red, w'));
    assert Balanced(n) && Balanced(Join(s, Far(s, n), w.x, w.key, true, Far(s, w)));
  }

  /** ... and then the sibling takes the parent's place and colour, and all is well. */
  ghost function LiftSibling<X>(c: Ctx<X>, t: Tree<X>): Tree<X>
    requires c.Up? && c.sib.Bin? && Far(c.hole, c.sib).Bin?
  {
    var s, w := c.hole, c.sib;
    Join(s, Join(s, t, c.x, c.key, false, Near(s, w)), w.x, w.key, c.red, Far(s, w).(red := false))
  }

  lemma LiftSiblingLaws<X>(c: Ctx<X>, t: Tree<X>)
    requires FarRed(c, t)
    ensures RedBlack(Plug(c.up, LiftSibling(c, t))) && Listing(c.up, LiftSibling(c, t)) == Listing(c, t)
  {
    var s, w, v := c.hole, c.sib, LiftSibling(c, t);
    TurnListing(s, t, c.x, c.key, false, c.red, Near(s, w), w.x, w.key, c.red, w.red, Far(s, w));
    SameListing(c.up, Join(s, t, c.x, c.key, c.red, w), v);
    LiftSiblingBalance(c, t);
    PlugRedBlack(c.up, v);
  }

  lemma LiftSiblingBalance<X>(c: Ctx<X>, t: Tree<X>)
    requires FarRed(c, t)
    ensures var v := LiftSibling(c, t); Balanced(v) && BalancedC(c.up, BH(v)) && (IsRed(v) ==> TakesRed(c.up))
  {
    var s, w := c.hole, c.sib;
    var p, f := Join(s, t, c.x, c.key, false, Near(s, w)), Far(s, w).(red := false);
    assert Balanced(Near(s, w)) && Balanced(Far(s, w)) && BH(Near(s, w)) == BH(Far(s, w)) == BH(t);
    assert BH(f) == BH(Far(s, w)) + 1;
    assert BH(p) == BH(p.l) + 1 && p.l == if s == L then t else Near(s, w);
    assert Balanced(p) && Balanced(f);
  }

  ghost function OnlyChild<X>(t: Tree<X>): Tree<X>
    requires t.Bin?
  {
    if t.l.Leaf? then t.r else t.l
  }

  ghost function Blackened<X>(t: Tree<X>): Tree<X> { if t.Bin? then t.(red := false) else t }

  /** Unlinking a node with at most one child: a red one leaves a balanced tree, a black one
      leaves a short place. */
  lemma UnlinkLaws<X>(c: Ctx<X>, m: Tree<X>)
    requires m.Bin? && (m.l.Leaf? || m.r.Leaf?) && RedBlack(Plug(c, m))
    ensures Balanced(OnlyChild(m))
    ensures m.red ==> !IsRed(OnlyChild(m)) && BalancedC(c, BH(OnlyChild(m)))
    ensures !m.red ==> BalancedC(c, BH(OnlyChild(m)) + 1)
  {
    PlugRedBlack(c, m);
  }

  /** Deletion ends with a short subtree that is the whole tree or has a red root. */
  lemma DeleteEnds<X>(c: Ctx<X>, t: Tree<X>)
    requires Short(c, t) && (c.Top? || IsRed(t))
    ensures RedBlack(Plug(c, Blackened(t))) && Listing(c, Blackened(t)) == Listing(c, t)
  {
    var t' := Blackened(t);
    SameListing(c, t, t');
    PlugRedBlack(c, t');
  }

  /** A red-black tree is short of nothing at its root. */
  lemma WholeIsShort<X>(t: Tree<X>)
    requires RedBlack(t)
    ensures Short(Top, t)
  {}

  // ---- height

  ghost function Size<X>(t: Tree<X>): nat { if t.Leaf? then 0 else Size(t.l) + 1 + Size(t.r) }

  ghost function Height<X>(t: Tree<X>): nat {
    if t.Leaf? then 0 else 1 + if Height(t.l) > Height(t.r) then Height(t.l) else Height(t.r)
  }

  ghost function Depth<X>(c: Ctx<X>): nat { if c.Top? then 0 else 1 + Depth(c.up) }

  ghost function SizeC<X>(c: Ctx<X>): nat { if c.Top? then 0 else 1 + Size(c.sib) + SizeC(c.up) }

  lemma {:induction false} BlackBounds<X>(t: Tree<X>)
    requires Balanced(t)
    ensures Pow2(BH(t)) <= Size(t) + 1
    ensures Height(t) <= 2 * BH(t) + if IsRed(t) then 1 else 0
  {
    if t.Bin? {
      BlackBounds(t.l);
      BlackBounds(t.r);
    }
  }

  /** 2^(height/2) <= n + 1, that is height <= 2 log2(n + 1): the bound on every walk down. */
  lemma HeightBound<X>(t: Tree<X>)
    requires RedBlack(t)
    ensures Pow2((Height(t) + 1) / 2) <= Size(t) + 1
  {
    BlackBounds(t);
    PowOrder((Height(t) + 1) / 2, BH(t));
  }

  /** As many nodes as entries. */
  lemma {:induction false} SizeIsElems<X>(t: Tree<X>)
    requires Distinct(t)
    ensures Size(t) == |Elems(t)|
  {
    if t.Bin? {
      SizeIsElems(t.l);
      SizeIsElems(t.r);
      assert |Elems(t.l) + {t.x}| == |Elems(t.l)| + 1;
    }
  }

  /** A walk down that has come to t through c still has at most Height(t) steps to go. */
  lemma {:induction false} DepthBound<X>(c: Ctx<X>, t: Tree<X>)
    ensures Depth(c) + Height(t) <= Height(Plug(c, t))
  {
    if c.Up? {
      DepthBound(c.up, Join(c.hole, t, c.x, c.key, c.red, c.sib));
    }
  }

  // ---- reaching a node

  /** The path from the root of t to node x. */
  ghost function PathTo<X>(t: Tree<X>, x: X, c: Ctx<X>): (p: (Ctx<X>, Tree<X>))
    requires x in Elems(t)
    ensures p.1.Bin? && p.1.x == x
    ensures Plug(p.0, p.1) == Plug(c, t)
  {
    if t.x == x then (c, t)
    else if x in Elems(t.l) then PathTo(t.l, x, Up(L, t.x, t.key, t.red, t.r, c))
    else PathTo(t.r, x, Up(R, t.x, t.key, t.red, t.l, c))
  }

  /** Every step of the path goes left: what the walk to the smallest node follows. */
  ghost predicate AllLeft<X>(c: Ctx<X>) { c.Up? ==> c.hole == L && AllLeft(c.up) }

  lemma {:induction false} AllLeftBefore<X>(c: Ctx<X>)
    requires AllLeft(c)
    ensures Before(c) == []
  {
    if c.Up? { AllLeftBefore(c.up); }
  }

  /** The first step of a non-empty context, seen from the root. */
  ghost function Outer<X>(c: Ctx<X>): X
    requires c.Up?
  {
    if c.up.Top? then c.x else Outer(c.up)
  }

  lemma {:induction false} OuterInside<X>(c: Ctx<X>)
    requires c.Up?
    ensures Outer(c) in ElemsC(c)
  {
    if c.up.Up? { OuterInside(c.up); }
  }

  lemma {:induction false} BeforeElems<X>(c: Ctx<X>)
    ensures forall i :: 0 <= i < |Before(c)| ==> Before(c)[i].x in ElemsC(c)
  {
    if c.Up? {
      BeforeElems(c.up);
      InorderElems(c.sib);
    }
  }

  lemma RemoveMiddle<X>(a: seq<Entry<X>>, l: seq<Entry<X>>, e: Entry<X>, r: seq<Entry<X>>, b: seq<Entry<X>>)
    requires forall i :: 0 <= i < |a| ==> a[i].x != e.x
    requires forall i :: 0 <= i < |l| ==> l[i].x != e.x
    ensures Remove(a + (l + [e] + r) + b, e.x) == a + (l + r) + b
  {
    RemoveAt(a + l, e, r + b);
    hide Remove;
    assert a + (l + [e] + r) + b == a + l + [e] + (r + b);
    assert a + (l + r) + b == a + l + (r + b);
  }

  /** Replacing the subtree t by one that lists everything but its root removes the root. */
  lemma RemoveHere<X>(c: Ctx<X>, t: Tree<X>, t': Tree<X>)
    requires t.Bin? && Apart(c, t) && Inorder(t') == Inorder(t.l) + Inorder(t.r)
    ensures Listing(c, t') == Remove(Listing(c, t), t.x)
  {
    PlugInorder(c, t);
    PlugInorder(c, t');
    BeforeElems(c);
    InorderElems(t.l);
    RemoveMiddle(Before(c), Inorder(t.l), Entry(t.x, t.key), Inorder(t.r), After(c));
  }

  /** Putting its only subtree in the place of a node removes just that node. */
  lemma RemoveOuter<X>(c: Ctx<X>, t: Tree<X>)
    requires t.Bin? && (t.l.Leaf? || t.r.Leaf?) && Apart(c, t)
    ensures Listing(c, OnlyChild(t)) == Remove(Listing(c, t), t.x)
  {
    RemoveHere(c, t, OnlyChild(t));
  }

  /** Moving the smallest node of the right subtree into the place of a node removes just
      that node. */
  lemma RemoveInner<X>(c: Ctx<X>, t: Tree<X>, cr: Ctx<X>, m: Tree<X>)
    requires t.Bin? && Apart(c, t) && AllLeft(cr) && m.Bin? && m.l.Leaf? && Plug(cr, m) == t.r
    ensures Listing(Append(cr, Up(R, m.x, m.key, t.red, t.l, c)), m.r) == Remove(Listing(c, t), t.x)
  {
    var t' := Bin(t.l, m.x, m.key, t.red, Plug(cr, m.r));
    PlugAppend(cr, Up(R, m.x, m.key, t.red, t.l, c), m.r);
    SmallestFirst(cr, m);
    assert Inorder(t') == Inorder(t.l) + Inorder(t.r);
    RemoveHere(c, t, t');
  }

  lemma {:induction false} SmallestFirst<X>(c: Ctx<X>, m: Tree<X>)
    requires AllLeft(c) && m.Bin? && m.l.Leaf?
    ensures Inorder(Plug(c, m)) == [Entry(m.x, m.key)] + Inorder(Plug(c, m.r))
  {
    AllLeftBefore(c);
    PlugInorder(c, m);
    PlugInorder(c, m.r);
    var e, r, a := [Entry(m.x, m.key)], Inorder(m.r), After(c);
    assert Inorder(m) == e + r;
    hide Plug, Before, After, Inorder;
    assert e + r + a == e + (r + a);
  }

  /** Blacks do not depend on which node or key stands at a place. */
  lemma {:induction false} BalancedSwap<X>(inner: Ctx<X>, o: Ctx<X>, x: X, key: int, h: nat)
    requires o.Up? && BalancedC(Append(inner, o), h)
    ensures BalancedC(Append(inner, o.(x := x, key := key)), h)
  {
    if inner.Up? {
      BalancedSwap(inner.up, o, x, key, if inner.red then h else h + 1);
    }
  }

  /** The place left behind is either balanced already or short of one black. */
  ghost predicate Settled<X>(c: Ctx<X>, u: Tree<X>, red: bool) {
    if red then RedBlack(Plug(c, u)) else Short(c, u)
  }

  lemma OuterLaws<X>(c: Ctx<X>, t: Tree<X>)
    requires t.Bin? && (t.l.Leaf? || t.r.Leaf?) && RedBlack(Plug(c, t))
    ensures Settled(c, OnlyChild(t), t.red)
  {
    UnlinkLaws(c, t);
    PlugRedBlack(c, OnlyChild(t));
  }

  lemma InnerLaws<X>(c: Ctx<X>, t: Tree<X>, cr: Ctx<X>, m: Tree<X>)
    requires t.Bin? && m.Bin? && m.l.Leaf? && Plug(cr, m) == t.r && RedBlack(Plug(c, t))
    ensures Settled(Append(cr, Up(R, m.x, m.key, t.red, t.l, c)), m.r, m.red)
  {
    var o := Up(R, t.x, t.key, t.red, t.l, c);
    PlugAppend(cr, o, m);
    UnlinkLaws(Append(cr, o), m);
    BalancedSwap(cr, o, m.x, m.key, if m.red then BH(m.r) else BH(m.r) + 1);
    PlugRedBlack(Append(cr, o.(x := m.x, key := m.key)), m.r);
  }

  lemma RootSettles<X>(t: Tree<X>)
    requires t.Bin? && RedBlack(t)
    ensures RedBlack(Blackened(OnlyChild(t))) && Inorder(Blackened(OnlyChild(t))) == Inorder(OnlyChild(t))
  {
    var u := OnlyChild(t);
    assert Balanced(u);
  }

  lemma RootLaws<X>(t: Tree<X>)
    requires t.Bin? && (t.l.Leaf? || t.r.Leaf?) && RedBlack(t) && Distinct(t)
    ensures RedBlack(Blackened(OnlyChild(t))) && Inorder(Blackened(OnlyChild(t))) == Remove(Inorder(t), t.x)
  {
    var c: Ctx<X> := Top;
    assert ElemsC(c) == {} && Apart(c, t);
    RemoveOuter(c, t);
    RootSettles(t);
  }

  lemma RemainderStable<X>(s: seq<Entry<X>>, born: map<X, nat>, x: X, t: Tree<X>)
    requires Stable(s, born) && Inorder(t) == Remove(s, x) && x !in Elems(t)
    ensures Stable(Inorder(t), born - {x})
  {
    RemoveStable(s, x, born);
    InorderElems(t);
  }
}
