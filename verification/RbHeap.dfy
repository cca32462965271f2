/** How linked nodes (src/nc_rbtree.h) stand for a shape. The fields of a set of nodes are
    taken together as one value, a map from node to cell; what the pointers of a tree have to
    look like is stated on that value, and so is what every piece of pointer surgery does. */
module RbHeap {
  import opened RbShape

  datatype Cell = Cell(left: Node?, right: Node?, parent: Node?, key: int, red: bool)
  type Cells = map<Node, Cell>

  class Node {
    var left: Node?
    var right: Node?
    var parent: Node?
    var key: int
    var red: bool

    constructor (key: int)
      ensures this.key == key
    {
      this.key := key;
    }

    ghost function Fields(): Cell
      reads this
    {
      Cell(left, right, parent, key, red)
    }
  }

  ghost function Snap(S: set<Node>): (h: Cells)
    reads S
    ensures h.Keys == S
  {
    map n | n in S :: n.Fields()
  }

  /** x is the root of a linked copy of t that hangs below p and whose missing children are
      all `nil`. An empty copy is nil itself, and nil's own fields are not looked at. */
  ghost predicate Rep(h: Cells, t: Tree<Node>, x: Node?, p: Node?, nil: Node) {
    match t
    case Leaf => x == nil
    case Bin(l, n, k, red, r) =>
      && x == n && n != nil && n in h && h[n].parent == p && h[n].key == k && h[n].red == red
      && Rep(h, l, h[n].left, n, nil) && Rep(h, r, h[n].right, n, nil)
  }

  /** From the hole, where x stands, the links lead up along c to root. The parent field of
      the root itself is never constrained. */
  ghost predicate RepC(h: Cells, c: Ctx<Node>, x: Node?, root: Node, nil: Node) {
    match c
    case Top => x == root
    case Up(s, n, k, red, sib, up) =>
      && n != nil && n in h && h[n].key == k && h[n].red == red && (up.Up? ==> h[n].parent == up.x)
      && (if s == L then h[n].left else h[n].right) == x
      && Rep(h, sib, if s == L then h[n].right else h[n].left, n, nil)
      && RepC(h, up, n, root, nil)
  }

  /** What stands above the hole: nothing in particular at the top. */
  ghost function Above(h: Cells, c: Ctx<Node>, x: Node?): Node? {
    if c.Up? then c.x else if x in h then h[x].parent else null
  }

  /** The cells h are the tree Plug(c, t), looked at from the place where x stands. */
  ghost predicate At(h: Cells, c: Ctx<Node>, t: Tree<Node>, x: Node?, root: Node, nil: Node) {
    && h.Keys == ElemsC(c) + Elems(t) && Apart(c, t) && nil !in h
    && RepC(h, c, x, root, nil) && Rep(h, t, x, Above(h, c, x), nil)
  }

  /** Where a subtree hangs: at its root, or at the sentinel when it is empty. */
  lemma Face(h: Cells, t: Tree<Node>, x: Node?, p: Node?, nil: Node)
    requires Rep(h, t, x, p, nil)
    ensures t.Leaf? ==> x == nil
    ensures t.Bin? ==> x == t.x && t.x != nil && t.x in Elems(t) && t.x in h && h[t.x].parent == p
  {}

  lemma FaceC(h: Cells, c: Ctx<Node>, x: Node, root: Node, nil: Node)
    requires RepC(h, c, x, root, nil) && x !in ElemsC(c) && x != nil
    ensures c.Top? ==> ElemsC(c) == {}
    ensures c.Up? ==>
              && c.x in h && c.x in ElemsC(c)
              && (h[c.x].left == x <==> c.hole == L) && (h[c.x].right == x <==> c.hole == R)
  {}

  // ---- cells that are not touched

  lemma {:induction false} RepSame(h: Cells, h': Cells, t: Tree<Node>, x: Node?, p: Node?, nil: Node)
    requires Rep(h, t, x, p, nil)
    requires forall n <- Elems(t) :: n in h && n in h' && h[n] == h'[n]
    ensures Rep(h', t, x, p, nil)
  {
    if t.Bin? {
      RepSame(h, h', t.l, h[x].left, x, nil);
      RepSame(h, h', t.r, h[x].right, x, nil);
    }
  }

  lemma {:induction false} RepCSame(h: Cells, h': Cells, c: Ctx<Node>, x: Node?, root: Node, nil: Node)
    requires RepC(h, c, x, root, nil)
    requires forall n <- ElemsC(c) :: n in h && n in h' && h[n] == h'[n]
    ensures RepC(h', c, x, root, nil)
  {
    if c.Up? {
      RepSame(h, h', c.sib, if c.hole == L then h[c.x].right else h[c.x].left, c.x, nil);
      RepCSame(h, h', c.up, c.x, root, nil);
    }
  }

  /** A subtree that only gets a new parent. */
  lemma NewParent(h: Cells, h': Cells, t: Tree<Node>, x: Node?, p: Node?, p': Node?, nil: Node)
    requires Distinct(t) && Rep(h, t, x, p, nil)
    requires forall n <- Elems(t) :: n in h && n in h' && h'[n] == if n == x then h[n].(parent := p') else h[n]
    ensures Rep(h', t, x, p', nil)
  {
    if t.Bin? {
      RepSame(h, h', t.l, h[x].left, x, nil);
      RepSame(h, h', t.r, h[x].right, x, nil);
    }
  }

  /** A context whose hole is filled with another node; root' is the root after that. */
  lemma NewHole(h: Cells, h': Cells, c: Ctx<Node>, x: Node?, x': Node, root: Node, root': Node, nil: Node)
    requires DistinctC(c) && RepC(h, c, x, root, nil)
    requires root' == if c.Top? then x' else root
    requires forall n <- ElemsC(c) :: n in h && n in h' && (n != c.x ==> h[n] == h'[n])
    requires c.Up? ==> h'[c.x] == if c.hole == L then h[c.x].(left := x') else h[c.x].(right := x')
    ensures RepC(h', c, x', root', nil)
  {
    if c.Up? {
      RepSame(h, h', c.sib, if c.hole == L then h[c.x].right else h[c.x].left, c.x, nil);
      RepCSame(h, h', c.up, c.x, root, nil);
    }
  }

  // ---- moving the point of view

  lemma Down(h: Cells, c: Ctx<Node>, t: Tree<Node>, root: Node, nil: Node)
    requires t.Bin? && At(h, c, t, t.x, root, nil)
    ensures At(h, Up(L, t.x, t.key, t.red, t.r, c), t.l, h[t.x].left, root, nil)
    ensures At(h, Up(R, t.x, t.key, t.red, t.l, c), t.r, h[t.x].right, root, nil)
  {}

  lemma Out(h: Cells, c: Ctx<Node>, t: Tree<Node>, x: Node?, root: Node, nil: Node)
    requires c.Up? && At(h, c, t, x, root, nil)
    ensures At(h, c.up, Join(c.hole, t, c.x, c.key, c.red, c.sib), c.x, root, nil)
  {}

  lemma {:induction false} OutToTop(h: Cells, c: Ctx<Node>, t: Tree<Node>, x: Node?, root: Node, nil: Node)
    requires At(h, c, t, x, root, nil)
    ensures At(h, Top, Plug(c, t), root, root, nil)
  {
    if c.Up? {
      Out(h, c, t, x, root, nil);
      OutToTop(h, c.up, Join(c.hole, t, c.x, c.key, c.red, c.sib), c.x, root, nil);
    }
  }

  lemma {:induction false} DownTo(h: Cells, c: Ctx<Node>, t: Tree<Node>, x: Node, root: Node, nil: Node)
    requires x in Elems(t) && t.Bin? && At(h, c, t, t.x, root, nil)
    ensures var p := PathTo(t, x, c); At(h, p.0, p.1, x, root, nil)
    decreases t
  {
    Down(h, c, t, root, nil);
    if t.x != x {
      if x in Elems(t.l) {
        DownTo(h, Up(L, t.x, t.key, t.red, t.r, c), t.l, x, root, nil);
      } else {
        DownTo(h, Up(R, t.x, t.key, t.red, t.l, c), t.r, x, root, nil);
      }
    }
  }

  /** The sibling's view of the same tree. */
  ghost function Opposite(c: Ctx<Node>, t: Tree<Node>): Ctx<Node>
    requires c.Up?
  {
    Up(if c.hole == L then R else L, c.x, c.key, c.red, t, c.up)
  }

  lemma Across(h: Cells, c: Ctx<Node>, t: Tree<Node>, x: Node?, root: Node, nil: Node)
    requires c.Up? && At(h, c, t, x, root, nil)
    ensures c.x in h && At(h, Opposite(c, t), c.sib, if c.hole == L then h[c.x].right else h[c.x].left, root, nil)
    ensures c.sib.Bin? ==> c.sib.x == if c.hole == L then h[c.x].right else h[c.x].left
  {
    Out(h, c, t, x, root, nil);
    Down(h, c.up, Join(c.hole, t, c.x, c.key, c.red, c.sib), root, nil);
    Around(h, c, t, x, root, nil);
  }

  /** What the fields next to a place say. In particular the test by which the code tells a
      left child from a right one is right wherever a real node stands, and only the place at
      the top holds the root. */
  lemma Around(h: Cells, c: Ctx<Node>, t: Tree<Node>, x: Node?, root: Node, nil: Node)
    requires At(h, c, t, x, root, nil)
    ensures x == (if t.Bin? then t.x else nil)
    ensures t.Bin? && c.Up? ==>
              h[t.x].parent == c.x && (h[c.x].left == x <==> c.hole == L) && (h[c.x].right == x <==> c.hole == R)
    ensures c.Up? ==> (if c.hole == L then h[c.x].left else h[c.x].right) == x
    ensures c.Up? ==> (if c.hole == L then h[c.x].right else h[c.x].left) == if c.sib.Bin? then c.sib.x else nil
    ensures c.Up? && c.up.Up? ==> h[c.x].parent == c.up.x
    ensures x == root <==> c.Top?
  {
    if c.Up? { RootInside(h, c, x, root, nil); }
  }

  lemma {:induction false} RootInside(h: Cells, c: Ctx<Node>, x: Node?, root: Node, nil: Node)
    requires c.Up? && RepC(h, c, x, root, nil)
    ensures root in ElemsC(c)
  {
    if c.up.Up? { RootInside(h, c.up, c.x, root, nil); }
  }

  // ---- rotations

  ghost function RotL(t: Tree<Node>): Tree<Node>
    requires t.Bin? && t.r.Bin?
  {
    Bin(Bin(t.l, t.x, t.key, t.red, t.r.l), t.r.x, t.r.key, t.r.red, t.r.r)
  }

  ghost function RotR(t: Tree<Node>): Tree<Node>
    requires t.Bin? && t.l.Bin?
  {
    Bin(t.l.l, t.l.x, t.l.key, t.l.red, Bin(t.l.r, t.x, t.key, t.red, t.r))
  }

  /** Rotation moves no node in or out. */
  lemma RotLPure(t: Tree<Node>)
    requires t.Bin? && t.r.Bin?
    ensures Elems(RotL(t)) == Elems(t) == Elems(t.l) + {t.x} + Elems(t.r.l) + {t.r.x} + Elems(t.r.r)
    ensures Distinct(t) <==> Distinct(RotL(t))
  {
    var u := RotL(t);
    assert Elems(u.l) == Elems(t.l) + {t.x} + Elems(t.r.l);
    assert Elems(t.r) == Elems(t.r.l) + {t.r.x} + Elems(t.r.r);
    assert u.l.Bin? && u.l.l == t.l && u.l.r == t.r.l;
  }

  lemma RotRPure(t: Tree<Node>)
    requires t.Bin? && t.l.Bin?
    ensures Elems(RotR(t)) == Elems(t) == Elems(t.l.l) + {t.l.x} + Elems(t.l.r) + {t.x} + Elems(t.r)
    ensures Distinct(t) <==> Distinct(RotR(t))
  {
    RotLPure(RotR(t));
  }

  /** The cells after a rotation at n over its child y: b, the subtree between the two,
      changes sides, and what pointed to n from above points to y. */
  ghost predicate Turned(h: Cells, h': Cells, top: bool, n: Node, n': Cell, b: Node?, y: Node, y': Cell) {
    && h'.Keys == h.Keys && n in h && y in h
    && forall m <- h.Keys ::
         h'[m] == if m == n then n' else if m == y then y'
                  else if m == b then h[m].(parent := n)
                  else if top || m != h[n].parent then h[m]
                  else if h[m].left == n then h[m].(left := y) else h[m].(right := y)
  }

  ghost predicate TurnedLeft(h: Cells, h': Cells, top: bool, n: Node, y: Node) {
    && n in h && y in h
    && Turned(h, h', top,
              n, h[n].(right := h[y].left, parent := y), h[y].left, y, h[y].(left := n, parent := h[n].parent))
  }

  ghost predicate TurnedRight(h: Cells, h': Cells, top: bool, n: Node, y: Node) {
    && n in h && y in h
    && Turned(h, h', top,
              n, h[n].(left := h[y].right, parent := y), h[y].right, y, h[y].(right := n, parent := h[n].parent))
  }

  /** The pieces a rotation moves about share no node. */
  ghost predicate Pieces(K: set<Node>, c: Ctx<Node>, a: Tree<Node>, n: Node, b: Tree<Node>, y: Node, d: Tree<Node>) {
    && K == ElemsC(c) + Elems(a) + {n} + Elems(b) + {y} + Elems(d)
    && DistinctC(c) && Distinct(b)
    && Elems(b) !! ElemsC(c) && Elems(b) !! Elems(a) && Elems(b) !! Elems(d)
    && ElemsC(c) !! Elems(a) && ElemsC(c) !! Elems(d)
    && n != y && n !in ElemsC(c) + Elems(a) + Elems(b) + Elems(d) && y !in ElemsC(c) + Elems(a) + Elems(b) + Elems(d)
  }

  lemma PiecesOf(c: Ctx<Node>, t: Tree<Node>)
    requires Apart(c, t) && t.Bin?
    ensures t.r.Bin? ==> Pieces(ElemsC(c) + Elems(t), c, t.l, t.x, t.r.l, t.r.x, t.r.r)
    ensures t.l.Bin? ==> Pieces(ElemsC(c) + Elems(t), c, t.l.l, t.l.x, t.l.r, t.x, t.r)
  {
    if t.r.Bin? {
      assert Distinct(t.r) && Elems(t.r) == Elems(t.r.l) + {t.r.x} + Elems(t.r.r);
    }
    if t.l.Bin? {
      assert Distinct(t.l) && Elems(t.l) == Elems(t.l.l) + {t.l.x} + Elems(t.l.r);
    }
  }

  /** n on top and y its right child, or the other way round. */
  ghost predicate Lean(h: Cells, top: Side, c: Ctx<Node>, a: Tree<Node>, n: Node, b: Tree<Node>, y: Node,
        d: Tree<Node>, root: Node, nil: Node) {
    && n in h && y in h && n != nil && y != nil
    && Rep(h, a, h[n].left, n, nil) && Rep(h, d, h[y].right, y, nil)
    && (if top == R then
          && h[n].right == y && h[y].parent == n && Rep(h, b, h[y].left, y, nil)
          && RepC(h, c, n, root, nil) && (c.Up? ==> h[n].parent == c.x)
        else
          && h[y].left == n && h[n].parent == y && Rep(h, b, h[n].right, n, nil)
          && RepC(h, c, y, root, nil) && (c.Up? ==> h[y].parent == c.x))
  }

  lemma LeanOf(h: Cells, c: Ctx<Node>, t: Tree<Node>, root: Node, nil: Node)
    requires t.Bin? && At(h, c, t, t.x, root, nil)
    ensures t.r.Bin? ==> Lean(h, R, c, t.l, t.x, t.r.l, t.r.x, t.r.r, root, nil)
    ensures t.l.Bin? ==> Lean(h, L, c, t.l.l, t.l.x, t.l.r, t.x, t.r, root, nil)
  {
    assert t.r.Bin? ==> Rep(h, t.r, h[t.x].right, t.x, nil);
    assert t.l.Bin? ==> Rep(h, t.l, h[t.x].left, t.x, nil);
  }

  lemma LeanIsR(h: Cells, c: Ctx<Node>, t: Tree<Node>, root: Node, nil: Node)
    requires t.Bin? && h.Keys == ElemsC(c) + Elems(t) && Apart(c, t) && nil !in h
    requires t.x in h && h[t.x].key == t.key && h[t.x].red == t.red
    requires t.r.Bin? && Lean(h, R, c, t.l, t.x, t.r.l, t.r.x, t.r.r, root, nil)
             && h[t.r.x].key == t.r.key && h[t.r.x].red == t.r.red
    ensures At(h, c, t, t.x, root, nil)
  {
    hide Elems, Distinct, DistinctC, RepC;
    assert Rep(h, t.r, h[t.x].right, t.x, nil);
  }

  lemma LeanIsL(h: Cells, c: Ctx<Node>, t: Tree<Node>, root: Node, nil: Node)
    requires t.Bin? && h.Keys == ElemsC(c) + Elems(t) && Apart(c, t) && nil !in h
    requires t.x in h && h[t.x].key == t.key && h[t.x].red == t.red
    requires t.l.Bin? && Lean(h, L, c, t.l.l, t.l.x, t.l.r, t.x, t.r, root, nil)
             && h[t.l.x].key == t.l.key && h[t.l.x].red == t.l.red
    ensures At(h, c, t, t.x, root, nil)
  {
    hide Elems, Distinct, DistinctC, RepC;
    assert Rep(h, t.l, h[t.x].left, t.x, nil);
  }

  lemma TurnedLeftLean(h: Cells, h': Cells, c: Ctx<Node>, a: Tree<Node>, n: Node, b: Tree<Node>, y: Node,
        d: Tree<Node>, root: Node, root': Node, nil: Node)
    requires nil !in h && Pieces(h.Keys, c, a, n, b, y, d) && Lean(h, R, c, a, n, b, y, d, root, nil)
    requires TurnedLeft(h, h', c.Top?, n, y) && root' == if c.Top? then y else root
    ensures Lean(h', L, c, a, n, b, y, d, root', nil)
  {
    hide Elems, ElemsC, Distinct, DistinctC, RepC, Rep;
    Face(h, b, h[y].left, y, nil);
    FaceC(h, c, n, root, nil);
    RepSame(h, h', a, h[n].left, n, nil);
    NewParent(h, h', b, h[y].left, y, n, nil);
    RepSame(h, h', d, h[y].right, y, nil);
    NewHole(h, h', c, n, y, root, root', nil);
  }

  lemma TurnedRightLean(h: Cells, h': Cells, c: Ctx<Node>, a: Tree<Node>, y: Node, b: Tree<Node>, n: Node,
        d: Tree<Node>, root: Node, root': Node, nil: Node)
    requires nil !in h && Pieces(h.Keys, c, a, y, b, n, d) && Lean(h, L, c, a, y, b, n, d, root, nil)
    requires TurnedRight(h, h', c.Top?, n, y) && root' == if c.Top? then y else root
    ensures Lean(h', R, c, a, y, b, n, d, root', nil)
  {
    hide Elems, ElemsC, Distinct, DistinctC, RepC, Rep;
    Face(h, b, h[y].right, y, nil);
    FaceC(h, c, n, root, nil);
    RepSame(h, h', a, h[y].left, y, nil);
    NewParent(h, h', b, h[y].right, y, n, nil);
    RepSame(h, h', d, h[n].right, n, nil);
    NewHole(h, h', c, n, y, root, root', nil);
  }

  /** A left rotation of the cells is a left rotation of the tree. */
  lemma TurnedLeftAt(h: Cells, h': Cells, c: Ctx<Node>, t: Tree<Node>, root: Node, root': Node, nil: Node)
    requires t.Bin? && t.r.Bin? && At(h, c, t, t.x, root, nil)
    requires TurnedLeft(h, h', c.Top?, t.x, t.r.x) && root' == if c.Top? then t.r.x else root
    ensures At(h', c, RotL(t), t.r.x, root', nil)
  {
    PiecesOf(c, t);
    LeanOf(h, c, t, root, nil);
    RotLPure(t);
    assert Rep(h, t.r, h[t.x].right, t.x, nil);
    hide Elems, ElemsC, Distinct, DistinctC, RepC, Rep, Inorder, Plug, Lean;
    TurnedLeftLean(h, h', c, t.l, t.x, t.r.l, t.r.x, t.r.r, root, root', nil);
    LeanIsL(h', c, RotL(t), root', nil);
  }

  lemma TurnedRightAt(h: Cells, h': Cells, c: Ctx<Node>, t: Tree<Node>, root: Node, root': Node, nil: Node)
    requires t.Bin? && t.l.Bin? && At(h, c, t, t.x, root, nil)
    requires TurnedRight(h, h', c.Top?, t.x, t.l.x) && root' == if c.Top? then t.l.x else root
    ensures At(h', c, RotR(t), t.l.x, root', nil)
  {
    PiecesOf(c, t);
    LeanOf(h, c, t, root, nil);
    RotRPure(t);
    assert Rep(h, t.l, h[t.x].left, t.x, nil);
    hide Elems, ElemsC, Distinct, DistinctC, RepC, Rep, Inorder, Plug, Lean;
    TurnedRightLean(h, h', c, t.l.l, t.l.x, t.l.r, t.x, t.r, root, root', nil);
    LeanIsR(h', c, RotR(t), root', nil);
  }

  /** What a rotation finds around it. */
  lemma RotatesLeft(h: Cells, c: Ctx<Node>, t: Tree<Node>, x: Node, root: Node, nil: Node)
    requires t.Bin? && t.r.Bin? && At(h, c, t, x, root, nil)
    ensures x == t.x && nil !in h && x in h && t.r.x in h && x != t.r.x && h[x].right == t.r.x
    ensures var b := h[t.r.x].left; b == nil || (b in h && b != x && b != t.r.x)
    ensures x == root <==> c.Top?
    ensures c.Up? ==>
      var p := h[x].parent;
      p in h && p != x && p != t.r.x && p != h[t.r.x].left && (h[p].left == x <==> h[p].right != x)
  {
    Around(h, c, t, x, root, nil);
    LeanOf(h, c, t, root, nil);
    PiecesOf(c, t);
    Face(h, t.r.l, h[t.r.x].left, t.r.x, nil);
    assert t.x in Elems(t) && t.r.x in Elems(t.r);
    assert c.Up? ==> c.x in ElemsC(c);
  }

  lemma RotatesRight(h: Cells, c: Ctx<Node>, t: Tree<Node>, x: Node, root: Node, nil: Node)
    requires t.Bin? && t.l.Bin? && At(h, c, t, x, root, nil)
    ensures x == t.x && nil !in h && x in h && t.l.x in h && x != t.l.x && h[x].left == t.l.x
    ensures var b := h[t.l.x].right; b == nil || (b in h && b != x && b != t.l.x)
    ensures x == root <==> c.Top?
    ensures c.Up? ==>
      var p := h[x].parent;
      p in h && p != x && p != t.l.x && p != h[t.l.x].right && (h[p].left == x <==> h[p].right != x)
  {
    Around(h, c, t, x, root, nil);
    LeanOf(h, c, t, root, nil);
    PiecesOf(c, t);
    Face(h, t.l.r, h[t.l.x].right, t.l.x, nil);
    assert t.x in Elems(t) && t.l.x in Elems(t.l);
    assert c.Up? ==> c.x in ElemsC(c);
  }

  // ---- colours

  lemma Painted(h: Cells, h': Cells, c: Ctx<Node>, t: Tree<Node>, x: Node, red: bool, root: Node, nil: Node)
    requires t.Bin? && At(h, c, t, x, root, nil)
    requires x in h && h' == h[x := h[x].(red := red)]
    ensures At(h', c, t.(red := red), x, root, nil)
  {
    RepSame(h, h', t.l, h[x].left, x, nil);
    RepSame(h, h', t.r, h[x].right, x, nil);
    RepCSame(h, h', c, x, root, nil);
  }

  lemma PaintedParent(h: Cells, h': Cells, c: Ctx<Node>, t: Tree<Node>, x: Node?, red: bool, root: Node, nil: Node)
    requires c.Up? && At(h, c, t, x, root, nil)
    requires c.x in h && h' == h[c.x := h[c.x].(red := red)]
    ensures At(h', c.(red := red), t, x, root, nil)
  {
    RepSame(h, h', t, x, c.x, nil);
    RepSame(h, h', c.sib, if c.hole == L then h[c.x].right else h[c.x].left, c.x, nil);
    RepCSame(h, h', c.up, c.x, root, nil);
  }

  lemma PaintedSibling(h: Cells, h': Cells, c: Ctx<Node>, t: Tree<Node>, x: Node?, red: bool, root: Node, nil: Node)
    requires c.Up? && c.sib.Bin? && At(h, c, t, x, root, nil)
    requires c.sib.x in h && h' == h[c.sib.x := h[c.sib.x].(red := red)]
    ensures At(h', c.(sib := c.sib.(red := red)), t, x, root, nil)
  {
    var w := c.sib;
    Across(h, c, t, x, root, nil);
    hide At;
    Painted(h, h', Opposite(c, t), w, w.x, red, root, nil);
    Across(h', Opposite(c, t), w.(red := red), w.x, root, nil);
  }

  lemma PaintedGrandparent(h: Cells, h': Cells, c: Ctx<Node>, t: Tree<Node>, x: Node?, red: bool, root: Node, nil: Node)
    requires c.Up? && c.up.Up? && At(h, c, t, x, root, nil)
    requires c.up.x in h && h' == h[c.up.x := h[c.up.x].(red := red)]
    ensures At(h', c.(up := c.up.(red := red)), t, x, root, nil)
  {
    Around(h, c, t, x, root, nil);
    Out(h, c, t, x, root, nil);
    hide At;
    PaintedParent(h, h', c.up, Join(c.hole, t, c.x, c.key, c.red, c.sib), c.x, red, root, nil);
    In(h', c.(up := c.up.(red := red)), t, x, root, nil);
  }

  lemma PaintedUncle(h: Cells, h': Cells, c: Ctx<Node>, t: Tree<Node>, x: Node?, red: bool, root: Node, nil: Node)
    requires c.Up? && c.up.Up? && c.up.sib.Bin? && At(h, c, t, x, root, nil)
    requires c.up.sib.x in h && h' == h[c.up.sib.x := h[c.up.sib.x].(red := red)]
    ensures At(h', c.(up := c.up.(sib := c.up.sib.(red := red))), t, x, root, nil)
  {
    Around(h, c, t, x, root, nil);
    Out(h, c, t, x, root, nil);
    hide At;
    PaintedSibling(h, h', c.up, Join(c.hole, t, c.x, c.key, c.red, c.sib), c.x, red, root, nil);
    In(h', c.(up := c.up.(sib := c.up.sib.(red := red))), t, x, root, nil);
  }

  /** Back in again after going out. */
  lemma In(h: Cells, c: Ctx<Node>, t: Tree<Node>, x: Node?, root: Node, nil: Node)
    requires c.Up? && c.x in h && At(h, c.up, Join(c.hole, t, c.x, c.key, c.red, c.sib), c.x, root, nil)
    requires x == if c.hole == L then h[c.x].left else h[c.x].right
    ensures At(h, c, t, x, root, nil)
  {
    Down(h, c.up, Join(c.hole, t, c.x, c.key, c.red, c.sib), root, nil);
  }

  /** Paint a child of the sibling: the near one or the far one. */
  ghost function WithNephew(c: Ctx<Node>, side: Side, red: bool): Ctx<Node>
    requires c.Up? && c.sib.Bin? && (if side == L then c.sib.l.Bin? else c.sib.r.Bin?)
  {
    c.(sib := if side == L then c.sib.(l := c.sib.l.(red := red)) else c.sib.(r := c.sib.r.(red := red)))
  }

  lemma PaintedNephew(h: Cells, h': Cells, c: Ctx<Node>, t: Tree<Node>, x: Node?, side: Side, red: bool,
        root: Node, nil: Node)
    requires c.Up? && c.sib.Bin? && (if side == L then c.sib.l.Bin? else c.sib.r.Bin?) && At(h, c, t, x, root, nil)
    requires var n := if side == L then c.sib.l.x else c.sib.r.x; n in h && h' == h[n := h[n].(red := red)]
    ensures At(h', WithNephew(c, side, red), t, x, root, nil)
  {
    var w := c.sib;
    var o := Opposite(c, t);
    var n := if side == L then w.l else w.r;
    var oo := Up(side, w.x, w.key, w.red, if side == L then w.r else w.l, o);
    Across(h, c, t, x, root, nil);
    Down(h, o, w, root, nil);
    Face(h, n, if side == L then h[w.x].left else h[w.x].right, w.x, nil);
    Around(h, c, t, x, root, nil);
    hide At;
    Painted(h, h', oo, n, n.x, red, root, nil);
    Out(h', oo, n.(red := red), n.x, root, nil);
    Across(h', o, WithNephew(c, side, red).sib, w.x, root, nil);
  }

  // ---- hanging a new leaf

  lemma Single(h: Cells, n: Node, nil: Node)
    requires h.Keys == {n} && h[n].left == h[n].right == nil && n != nil
    ensures At(h, Top, Bin(Leaf, n, h[n].key, h[n].red, Leaf), n, n, nil)
  {
    var t := Bin(Leaf, n, h[n].key, h[n].red, Leaf);
    var c: Ctx<Node> := Top;
    assert Elems(t.l) == Elems(t.r) == {} && ElemsC(c) == {};
    assert Distinct(t.l) && Distinct(t.r) && Distinct(t) && DistinctC(c);
    assert Rep(h, t.l, nil, n, nil) && Rep(h, t.r, nil, n, nil);
  }

  lemma Attached(h: Cells, h': Cells, c: Ctx<Node>, n: Node, key: int, root: Node, nil: Node)
    requires c.Up? && At(h, c, Leaf, nil, root, nil) && n !in h && n != nil
    requires c.x in h
    requires var p := if c.hole == L then h[c.x].(left := n) else h[c.x].(right := n);
             h' == h[c.x := p][n := Cell(nil, nil, c.x, key, true)]
    ensures At(h', c, Bin(Leaf, n, key, true, Leaf), n, root, nil)
  {
    NewHole(h, h', c, nil, n, root, root, nil);
  }

  // ---- unlinking

  /** As At, but with any parent p above the subtree. */
  ghost predicate Loose(h: Cells, c: Ctx<Node>, t: Tree<Node>, x: Node?, p: Node?, root: Node, nil: Node) {
    && h.Keys == ElemsC(c) + Elems(t) && Apart(c, t) && nil !in h
    && RepC(h, c, x, root, nil) && Rep(h, t, x, p, nil)
  }

  /** The cells after n's parent got temp, n's only child, in n's place, and temp got the
      parent pp; n itself is forgotten. */
  ghost predicate Unlinked(h: Cells, h': Cells, n: Node, temp: Node, pp: Node) {
    && n in h && h'.Keys == h.Keys - {n}
    && forall m <- h'.Keys ::
         h'[m] == if m == temp then h[m].(parent := pp)
                  else if m != h[n].parent then h[m]
                  else if h[m].left == n then h[m].(left := temp) else h[m].(right := temp)
  }

  lemma UnlinkedAt(h: Cells, h': Cells, c: Ctx<Node>, t: Tree<Node>, temp: Node, pp: Node, root: Node, nil: Node)
    requires t.Bin? && (t.l.Leaf? || t.r.Leaf?) && c.Up? && At(h, c, t, t.x, root, nil)
    requires temp == (if t.l.Leaf? then h[t.x].right else h[t.x].left)
    requires Unlinked(h, h', t.x, temp, pp)
    ensures Loose(h', c, OnlyChild(t), temp, pp, root, nil)
  {
    var u := OnlyChild(t);
    Around(h, c, t, t.x, root, nil);
    assert Elems(t) == Elems(u) + {t.x};
    Face(h, u, temp, t.x, nil);
    hide Elems, Distinct;
    NewParent(h, h', u, temp, t.x, pp, nil);
    NewHole(h, h', c, t.x, temp, root, root, nil);
  }

  /** Unlinking the root: its only child becomes the root and turns black. */
  lemma UnlinkedRoot(h: Cells, h': Cells, t: Tree<Node>, temp: Node, root: Node, nil: Node)
    requires t.Bin? && (t.l.Leaf? || t.r.Leaf?) && At(h, Top, t, t.x, root, nil)
    requires temp == (if t.l.Leaf? then h[t.x].right else h[t.x].left)
    requires h'.Keys == h.Keys - {t.x}
    requires forall m <- h'.Keys :: h'[m] == if m == temp then h[m].(red := false) else h[m]
    ensures At(h', Top, Blackened(OnlyChild(t)), temp, temp, nil)
  {
    var u, c: Ctx<Node>, h1 := OnlyChild(t), Top, h - {t.x};
    assert Elems(t) == Elems(u) + {t.x} && ElemsC(c) == {} && Apart(c, u);
    Face(h, u, temp, t.x, nil);
    hide Elems, Distinct, ElemsC;
    RepSame(h, h1, u, temp, t.x, nil);
    assert At(h1, c, u, temp, temp, nil);
    if u.Bin? {
      assert h' == h1[temp := h1[temp].(red := false)];
      Painted(h1, h', c, u, temp, false, temp, nil);
    } else {
      assert h' == h1;
    }
  }

  // ---- putting one node in the place of another

  /** The cells after subst, so far outside, took over the links and the colour of n. */
  ghost predicate Replaced(h: Cells, h': Cells, n: Node, subst: Node, key: int, top: bool) {
    && n in h && subst !in h && h'.Keys == h.Keys - {n} + {subst}
    && h'[subst] == h[n].(key := key)
    && forall m <- h.Keys - {n} ::
         h'[m] == if m == h[n].left || m == h[n].right then h[m].(parent := subst)
                  else if top || m != h[n].parent then h[m]
                  else if h[m].left == n then h[m].(left := subst) else h[m].(right := subst)
  }

  /** The first half of that, before the children learn about it. */
  ghost predicate HalfReplaced(h: Cells, h': Cells, n: Node, subst: Node, key: int, top: bool) {
    && n in h && subst !in h && h'.Keys == h.Keys - {n} + {subst}
    && h'[subst] == h[n].(key := key)
    && forall m <- h.Keys - {n} ::
         h'[m] == if top || m != h[n].parent then h[m]
                  else if h[m].left == n then h[m].(left := subst) else h[m].(right := subst)
  }

  /** The second half. */
  ghost predicate Adopted(h: Cells, h': Cells, n: Node) {
    && n in h && h'.Keys == h.Keys
    && forall m <- h.Keys :: h'[m] == if m == h[n].left || m == h[n].right then h[m].(parent := n) else h[m]
  }

  lemma BothHalves(h: Cells, h1: Cells, h': Cells, n: Node, subst: Node, key: int, top: bool)
    requires HalfReplaced(h, h1, n, subst, key, top) && Adopted(h1, h', subst)
    requires subst != h[n].left && subst != h[n].right
    requires !top ==> h[n].parent != h[n].left && h[n].parent != h[n].right
    ensures Replaced(h, h', n, subst, key, top)
  {}

  /** The outer part of a path by itself. */
  lemma {:induction false} OuterRep(h: Cells, cr: Ctx<Node>, o: Ctx<Node>, x: Node?, root: Node, nil: Node)
    requires RepC(h, Append(cr, o), x, root, nil)
    ensures RepC(h, o, if cr.Up? then Outer(cr) else x, root, nil)
  {
    if cr.Up? { OuterRep(h, cr.up, o, cr.x, root, nil); }
  }

  lemma {:induction false} ReplacedC(h: Cells, h': Cells, cr: Ctx<Node>, o: Ctx<Node>, o': Ctx<Node>, x: Node?,
        root: Node, root': Node, nil: Node)
    requires o.Up? && o'.Up? && RepC(h, Append(cr, o), x, root, nil) && DistinctC(cr)
    requires forall m <- ElemsC(cr) ::
               m in h && m in h' && h'[m] == if m == Outer(cr) then h[m].(parent := o'.x) else h[m]
    requires RepC(h', o', if cr.Up? then Outer(cr) else x, root', nil)
    ensures RepC(h', Append(cr, o'), x, root', nil)
  {
    if cr.Up? {
      if cr.up.Up? { OuterInside(cr.up); }
      RepSame(h, h', cr.sib, if cr.hole == L then h[cr.x].right else h[cr.x].left, cr.x, nil);
      ReplacedC(h, h', cr.up, o, o', cr.x, root, root', nil);
    }
  }

  /** The step at n itself: its left subtree and what is above it. */
  lemma ReplacedStep(h: Cells, h': Cells, o: Ctx<Node>, x: Node?, subst: Node, key: int, root: Node,
        root': Node, nil: Node)
    requires o.Up? && o.hole == R && RepC(h, o, x, root, nil) && DistinctC(o) && (x == nil || x !in ElemsC(o))
    requires ElemsC(o) <= h.Keys && nil !in h && subst != nil
    requires Replaced(h, h', o.x, subst, key, o.up.Top?) && root' == if o.up.Top? then subst else root
    ensures RepC(h', o.(x := subst, key := key), x, root', nil)
  {
    var n, l, c := o.x, o.sib, o.up;
    Face(h, l, h[n].left, n, nil);
    if c.Up? { FaceC(h, c, n, root, nil); }
    NewParent(h, h', l, h[n].left, n, subst, nil);
    NewHole(h, h', c, n, subst, root, root', nil);
  }

  /** The nodes of the tree after the replacement. */
  lemma ReplacedNodes(h: Cells, h': Cells, cr: Ctx<Node>, o: Ctx<Node>, u: Tree<Node>, temp: Node, subst: Node,
        key: int, root: Node, nil: Node)
    requires o.Up? && o.hole == R && subst != nil
    requires Loose(h, Append(cr, o), u, temp, if cr.Up? then cr.x else subst, root, nil)
    requires Replaced(h, h', o.x, subst, key, o.up.Top?)
    ensures var c := Append(cr, o.(x := subst, key := key));
            Apart(c, u) && h'.Keys == ElemsC(c) + Elems(u) && nil !in h'
  {
    hide Rep, RepC;
    AppendElems(cr, o);
    AppendElems(cr, o.(x := subst, key := key));
  }

  /** The path to the hole after it. */
  lemma ReplacedPath(h: Cells, h': Cells, cr: Ctx<Node>, o: Ctx<Node>, u: Tree<Node>, temp: Node, subst: Node,
        key: int, root: Node, root': Node, nil: Node)
    requires o.Up? && o.hole == R && subst != nil
    requires Loose(h, Append(cr, o), u, temp, if cr.Up? then cr.x else subst, root, nil)
    requires Replaced(h, h', o.x, subst, key, o.up.Top?)
    requires root' == if o.up.Top? then subst else root
    ensures RepC(h', Append(cr, o.(x := subst, key := key)), temp, root', nil)
  {
    var o' := o.(x := subst, key := key);
    AppendElems(cr, o);
    OuterRep(h, cr, o, temp, root, nil);
    if cr.Up? { OuterInside(cr); }
    Face(h, u, temp, if cr.Up? then cr.x else subst, nil);
    ReplacedStep(h, h', o, if cr.Up? then Outer(cr) else temp, subst, key, root, root', nil);
    ReplacedC(h, h', cr, o, o', temp, root, root', nil);
  }

  /** The subtree in the hole after it. */
  lemma ReplacedBelow(h: Cells, h': Cells, cr: Ctx<Node>, o: Ctx<Node>, u: Tree<Node>, temp: Node, subst: Node,
        key: int, root: Node, nil: Node)
    requires o.Up? && o.hole == R && subst != nil
    requires Loose(h, Append(cr, o), u, temp, if cr.Up? then cr.x else subst, root, nil)
    requires Replaced(h, h', o.x, subst, key, o.up.Top?)
    ensures Rep(h', u, temp, if cr.Up? then cr.x else subst, nil)
  {
    AppendElems(cr, o);
    OuterRep(h, cr, o, temp, root, nil);
    if cr.Up? { OuterInside(cr); }
    Face(h, u, temp, if cr.Up? then cr.x else subst, nil);
    RepSame(h, h', u, temp, if cr.Up? then cr.x else subst, nil);
  }

  lemma ReplacedAt(h: Cells, h': Cells, cr: Ctx<Node>, o: Ctx<Node>, u: Tree<Node>, temp: Node, subst: Node,
        key: int, root: Node, root': Node, nil: Node)
    requires o.Up? && o.hole == R && subst != nil
    requires Loose(h, Append(cr, o), u, temp, if cr.Up? then cr.x else subst, root, nil)
    requires Replaced(h, h', o.x, subst, key, o.up.Top?)
    requires root' == if o.up.Top? then subst else root
    ensures At(h', Append(cr, o.(x := subst, key := key)), u, temp, root', nil)
  {
    ReplacedNodes(h, h', cr, o, u, temp, subst, key, root, nil);
    ReplacedPath(h, h', cr, o, u, temp, subst, key, root, root', nil);
    ReplacedBelow(h, h', cr, o, u, temp, subst, key, root, nil);
    hide Rep, RepC, Elems, ElemsC, Apart, Loose, Replaced;
  }

  /** What the replacement of a node finds around it. */
  lemma Replaceable(h: Cells, cr: Ctx<Node>, o: Ctx<Node>, u: Tree<Node>, temp: Node, p: Node?, root: Node, nil: Node)
    requires o.Up? && o.hole == R && Loose(h, Append(cr, o), u, temp, p, root, nil)
    ensures nil !in h && o.x in h && (o.x == root <==> o.up.Top?)
    ensures var l, r := h[o.x].left, h[o.x].right;
            && (l == nil || (l in h && l != o.x)) && (r == nil || (r in h && r != o.x)) && (l == r ==> l == nil)
    ensures o.up.Up? ==>
      var q := h[o.x].parent;
      q in h && q != o.x && q != h[o.x].left && q != h[o.x].right && (h[q].left == o.x <==> h[q].right != o.x)
  {
    AppendElems(cr, o);
    OuterRep(h, cr, o, temp, root, nil);
    if cr.Up? { OuterInside(cr); }
    Face(h, u, temp, p, nil);
    Face(h, o.sib, h[o.x].left, o.x, nil);
    if o.up.Up? {
      FaceC(h, o.up, o.x, root, nil);
      RootInside(h, o.up, o.x, root, nil);
    }
  }

  /** What the unlinking of a node finds around it. */
  lemma Unlinkable(h: Cells, c: Ctx<Node>, t: Tree<Node>, root: Node, nil: Node)
    requires t.Bin? && (t.l.Leaf? || t.r.Leaf?) && c.Up? && At(h, c, t, t.x, root, nil)
    ensures t.x in h && c.x in h && h[t.x].parent == c.x && c.x != t.x && (h[c.x].left == t.x <==> h[c.x].right != t.x)
    ensures var temp := if t.l.Leaf? then h[t.x].right else h[t.x].left;
            temp == nil || (temp in h && temp != t.x && temp != c.x)
  {
    Around(h, c, t, t.x, root, nil);
    Down(h, c, t, root, nil);
    Face(h, t.l, h[t.x].left, t.x, nil);
    Face(h, t.r, h[t.x].right, t.x, nil);
    assert c.x in ElemsC(c);
  }

  lemma {:induction false} InorderKeys(h: Cells, t: Tree<Node>, x: Node?, p: Node?, nil: Node)
    requires Rep(h, t, x, p, nil)
    ensures forall i :: 0 <= i < |Inorder(t)| ==> Inorder(t)[i].x in h && h[Inorder(t)[i].x].key == Inorder(t)[i].key
  {
    if t.Bin? {
      InorderKeys(h, t.l, h[x].left, x, nil);
      InorderKeys(h, t.r, h[x].right, x, nil);
    }
  }
}
