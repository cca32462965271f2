/** The red-black tree of src/nc_rbtree.c. */
module RbTree {
  import opened RbShape
  import opened RbHeap
  import opened Words

  class RedBlackTree {
    var root: Node
    const sentinel: Node

    ghost var shape: Tree<Node>
    ghost var nodes: set<Node>
    // when each node was inserted, and the time of the next insertion
    ghost var born: map<Node, nat>
    ghost var clock: nat

    ghost predicate Valid()
      reads this, sentinel, nodes
    {
      && Here(nodes, Top, shape, root)
      && RedBlack(shape) && !sentinel.red
      && Stable(Inorder(shape), born) && born.Keys == nodes && forall x <- nodes :: born[x] < clock
    }

    /** nc_rbtree_init */
    constructor (node: Node)
      modifies node
      ensures Valid() && sentinel == node && Inorder(shape) == []
    {
      root := node;
      sentinel := node;
      shape, nodes, born, clock := Leaf, {}, map[], 0;
      new;
      Clear(node);
      node.red := false;
    }

    /** nc_rbtree_node_init: the colour is left as it is */
    static method Clear(node: Node)
      modifies node`left, node`right, node`parent, node`key
      ensures node.left == null && node.right == null && node.parent == null && node.key == 0
    {
      node.left := null;
      node.right := null;
      node.parent := null;
      node.key := 0;
    }

    // The place (c, t) is where x stands among the nodes S.
    ghost predicate Here(S: set<Node>, c: Ctx<Node>, t: Tree<Node>, x: Node?)
      reads this`root, S
    {
      At(Snap(S), c, t, x, root, sentinel)
    }

    method TurnLeft(node: Node, ghost S: set<Node>, ghost y: Node, ghost b: Node, ghost p: Node?)
      requires sentinel !in S && node in S && y in S && node != y
      requires node.right == y && y.left == b && node.parent == p
      requires b != sentinel ==> b in S && b != node && b != y
      requires node != root ==> p in S && p != node && p != y && p != b && (p.left == node <==> p.right != node)
      modifies this`root, S`left, S`right, S`parent
      ensures root == if old(root) == node then y else old(root)
      ensures TurnedLeft(old(Snap(S)), Snap(S), old(root) == node, node, y)
    {
      var temp := node.right;
      node.right := temp.left;
      if temp.left != sentinel {
        temp.left.parent := node;
      }
      temp.parent := node.parent;
      if node == root {
        root := temp;
      } else if node == node.parent.left {
        node.parent.left := temp;
      } else {
        node.parent.right := temp;
      }
      temp.left := node;
      node.parent := temp;
    }

    method TurnRight(node: Node, ghost S: set<Node>, ghost y: Node, ghost b: Node, ghost p: Node?)
      requires sentinel !in S && node in S && y in S && node != y
      requires node.left == y && y.right == b && node.parent == p
      requires b != sentinel ==> b in S && b != node && b != y
      requires node != root ==> p in S && p != node && p != y && p != b && (p.left == node <==> p.right != node)
      modifies this`root, S`left, S`right, S`parent
      ensures root == if old(root) == node then y else old(root)
      ensures TurnedRight(old(Snap(S)), Snap(S), old(root) == node, node, y)
    {
      var temp := node.left;
      node.left := temp.right;
      if temp.right != sentinel {
        temp.right.parent := node;
      }
      temp.parent := node.parent;
      if node == root {
        root := temp;
      } else if node == node.parent.right {
        node.parent.right := temp;
      } else {
        node.parent.left := temp;
      }
      temp.right := node;
      node.parent := temp;
    }

    method RotateLeft(node: Node, ghost S: set<Node>, ghost c: Ctx<Node>, ghost t: Tree<Node>)
      requires t.Bin? && t.r.Bin? && Here(S, c, t, node)
      modifies this`root, S`left, S`right, S`parent
      ensures Here(S, c, RotL(t), t.r.x)
    {
      hide At, Inorder, Plug, Elems, Apart;
      ghost var h := Snap(S);
      RotatesLeft(h, c, t, node, root, sentinel);
      TurnLeft(node, S, node.right, node.right.left, node.parent);
      TurnedLeftAt(h, Snap(S), c, t, old(root), root, sentinel);
    }

    method RotateRight(node: Node, ghost S: set<Node>, ghost c: Ctx<Node>, ghost t: Tree<Node>)
      requires t.Bin? && t.l.Bin? && Here(S, c, t, node)
      modifies this`root, S`left, S`right, S`parent
      ensures Here(S, c, RotR(t), t.l.x)
    {
      hide At, Inorder, Plug, Elems, Apart;
      ghost var h := Snap(S);
      RotatesRight(h, c, t, node, root, sentinel);
      TurnRight(node, S, node.left, node.left.right, node.parent);
      TurnedRightAt(h, Snap(S), c, t, old(root), root, sentinel);
    }

    // the colour macros, seen from a place

    method SetRed(x: Node, red: bool, ghost S: set<Node>, ghost c: Ctx<Node>, ghost t: Tree<Node>)
      requires t.Bin? && Here(S, c, t, x)
      modifies x`red
      ensures Here(S, c, t.(red := red), x)
    {
      hide At;
      ghost var h := Snap(S);
      Nearby(S, c, t, x);
      x.red := red;
      assert Snap(S) == h[x := h[x].(red := red)];
      Painted(h, Snap(S), c, t, x, red, root, sentinel);
    }

    method SetParentRed(p: Node, red: bool, ghost S: set<Node>, ghost c: Ctx<Node>, ghost t: Tree<Node>, ghost x: Node?)
      requires c.Up? && p == c.x && Here(S, c, t, x)
      modifies p`red
      ensures Here(S, c.(red := red), t, x)
    {
      hide At;
      ghost var h := Snap(S);
      Nearby(S, c, t, x);
      p.red := red;
      assert Snap(S) == h[p := h[p].(red := red)];
      PaintedParent(h, Snap(S), c, t, x, red, root, sentinel);
    }

    method SetSiblingRed(w: Node, red: bool, ghost S: set<Node>, ghost c: Ctx<Node>, ghost t: Tree<Node>,
          ghost x: Node?)
      requires c.Up? && c.sib.Bin? && w == c.sib.x && Here(S, c, t, x)
      modifies w`red
      ensures Here(S, c.(sib := c.sib.(red := red)), t, x)
    {
      hide At;
      ghost var h := Snap(S);
      Nearby(S, c, t, x);
      w.red := red;
      assert Snap(S) == h[w := h[w].(red := red)];
      PaintedSibling(h, Snap(S), c, t, x, red, root, sentinel);
    }

    method SetGrandparentRed(g: Node, red: bool, ghost S: set<Node>, ghost c: Ctx<Node>, ghost t: Tree<Node>,
          ghost x: Node?)
      requires c.Up? && c.up.Up? && g == c.up.x && Here(S, c, t, x)
      modifies g`red
      ensures Here(S, c.(up := c.up.(red := red)), t, x)
    {
      hide At;
      ghost var h := Snap(S);
      Nearby2(S, c, t, x);
      g.red := red;
      assert Snap(S) == h[g := h[g].(red := red)];
      PaintedGrandparent(h, Snap(S), c, t, x, red, root, sentinel);
    }

    method SetUncleRed(u: Node, red: bool, ghost S: set<Node>, ghost c: Ctx<Node>, ghost t: Tree<Node>, ghost x: Node?)
      requires c.Up? && c.up.Up? && c.up.sib.Bin? && u == c.up.sib.x && Here(S, c, t, x)
      modifies u`red
      ensures Here(S, c.(up := c.up.(sib := c.up.sib.(red := red))), t, x)
    {
      hide At;
      ghost var h := Snap(S);
      Nearby2(S, c, t, x);
      u.red := red;
      assert Snap(S) == h[u := h[u].(red := red)];
      PaintedUncle(h, Snap(S), c, t, x, red, root, sentinel);
    }

    method SetNephewRed(n: Node, side: Side, red: bool, ghost S: set<Node>, ghost c: Ctx<Node>,
          ghost t: Tree<Node>, ghost x: Node?)
      requires c.Up? && c.sib.Bin?
      requires if side == L then c.sib.l.Bin? && n == c.sib.l.x else c.sib.r.Bin? && n == c.sib.r.x
      requires Here(S, c, t, x)
      modifies n`red
      ensures Here(S, WithNephew(c, side, red), t, x)
    {
      hide At;
      ghost var h := Snap(S);
      Nephews(S, c, t, x);
      n.red := red;
      assert Snap(S) == h[n := h[n].(red := red)];
      PaintedNephew(h, Snap(S), c, t, x, side, red, root, sentinel);
    }

    lemma Nephews(S: set<Node>, c: Ctx<Node>, t: Tree<Node>, x: Node?)
      requires c.Up? && c.sib.Bin? && Here(S, c, t, x)
      ensures c.sib.x in S
      ensures c.sib.x.left == (if c.sib.l.Bin? then c.sib.l.x else sentinel)
      ensures c.sib.x.right == (if c.sib.r.Bin? then c.sib.r.x else sentinel)
      ensures c.sib.l.Bin? ==> c.sib.l.x in S && c.sib.l.x.red == c.sib.l.red
      ensures c.sib.r.Bin? ==> c.sib.r.x in S && c.sib.r.x.red == c.sib.r.red
    {
      hide At;
      var w, o := c.sib, Opposite(c, t);
      Across(Snap(S), c, t, x, root, sentinel);
      Nearby(S, o, w, w.x);
      Down(Snap(S), o, w, root, sentinel);
      Nearby(S, Up(L, w.x, w.key, w.red, w.r, o), w.l, w.x.left);
      Nearby(S, Up(R, w.x, w.key, w.red, w.l, o), w.r, w.x.right);
    }

    /** What is read around a place. */
    lemma Nearby(S: set<Node>, c: Ctx<Node>, t: Tree<Node>, x: Node?)
      requires Here(S, c, t, x)
      ensures x == (if t.Bin? then t.x else sentinel)
      ensures t.Bin? ==> x in S && x.key == t.key && x.red == t.red
      ensures c.Up? ==> c.x in S && c.x.red == c.red
      ensures t.Bin? && c.Up? ==>
                x.parent == c.x && (c.x.left == x <==> c.hole == L) && (c.x.right == x <==> c.hole == R)
      ensures c.Up? ==> (if c.hole == L then c.x.left else c.x.right) == x
      ensures c.Up? ==> (if c.hole == L then c.x.right else c.x.left) == if c.sib.Bin? then c.sib.x else sentinel
      ensures c.Up? && c.sib.Bin? ==> c.sib.x in S && c.sib.x.red == c.sib.red
      ensures c.Up? && c.up.Up? ==> c.x.parent == c.up.x
      ensures x == root <==> c.Top?
    {
      var h := Snap(S);
      Around(h, c, t, x, root, sentinel);
      assert t.Bin? ==> t.x in Elems(t) && h[t.x] == t.x.Fields();
      assert c.Up? ==> c.x in ElemsC(c) && h[c.x] == c.x.Fields();
      assert c.Up? && c.sib.Bin? ==> c.sib.x in Elems(c.sib) && h[c.sib.x] == c.sib.x.Fields();
    }

    /** ... and one step further up. */
    lemma Nearby2(S: set<Node>, c: Ctx<Node>, t: Tree<Node>, x: Node?)
      requires c.Up? && c.up.Up? && Here(S, c, t, x)
      ensures c.up.x in S && c.up.x.red == c.up.red
      ensures c.x.parent == c.up.x && (c.up.x.left == c.x <==> c.up.hole == L)
              && (c.up.x.right == c.x <==> c.up.hole == R)
      ensures (if c.up.hole == L then c.up.x.right else c.up.x.left) == if c.up.sib.Bin? then c.up.sib.x else sentinel
      ensures c.up.sib.Bin? ==> c.up.sib.x in S && c.up.sib.x.red == c.up.sib.red
    {
      Out(Snap(S), c, t, x, root, sentinel);
      Nearby(S, c.up, Join(c.hole, t, c.x, c.key, c.red, c.sib), c.x);
    }

    // ---- insert

    /** The walk to the place of a new key: behind everything at most as large. */
    method FindPlace(node: Node) returns (temp: Node, goLeft: bool, ghost c: Ctx<Node>)
      requires Valid() && root != sentinel
      ensures c.Up? && temp == c.x && goLeft == (c.hole == L) && Here(nodes, c, Leaf, sentinel)
      ensures Plug(c, Leaf) == shape && Brackets(c, node.key)
    {
      temp := root;
      c := Top;
      ghost var t := shape;
      StableSorted(Inorder(shape), born);
      while true
        invariant t.Bin? && Here(nodes, c, t, temp) && Plug(c, t) == shape && Brackets(c, node.key)
        decreases t
      {
        Down(Snap(nodes), c, t, root, sentinel);
        Descend(c, t, node.key);
        goLeft := node.key < temp.key;
        var next := if goLeft then temp.left else temp.right;
        c := if goLeft then Up(L, t.x, t.key, t.red, t.r, c) else Up(R, t.x, t.key, t.red, t.l, c);
        t := if goLeft then t.l else t.r;
        if next == sentinel {
          break;
        }
        temp := next;
      }
    }

    method Link(node: Node, temp: Node, goLeft: bool, ghost S: set<Node>)
      requires temp in S && node !in S
      modifies temp`left, temp`right, node`left, node`right, node`parent, node`red
      ensures Snap(S + {node}) ==
              old(Snap(S)[temp := if goLeft then temp.Fields().(left := node) else temp.Fields().(right := node)]
                         [node := Cell(sentinel, sentinel, temp, node.key, true)])
    {
      if goLeft {
        temp.left := node;
      } else {
        temp.right := node;
      }
      node.parent := temp;
      node.left := sentinel;
      node.right := sentinel;
      node.red := true;
    }

    method Attach(node: Node, temp: Node, goLeft: bool, ghost c: Ctx<Node>)
      requires c.Up? && temp == c.x && goLeft == (c.hole == L) && Here(nodes, c, Leaf, sentinel)
      requires node !in nodes && node != sentinel
      modifies temp`left, temp`right, node`left, node`right, node`parent, node`red
      ensures Here(nodes + {node}, c, Bin(Leaf, node, old(node.key), true, Leaf), node)
    {
      ghost var h := Snap(nodes);
      assert c.x in ElemsC(c) && c.x in nodes;
      hide At, ElemsC;
      Link(node, temp, goLeft, nodes);
      Attached(h, Snap(nodes + {node}), c, node, old(node.key), root, sentinel);
    }

    /** Parent and uncle red: make them black and the grandparent red, and go on from there. */
    method UncleRed(node0: Node, temp: Node, ghost S: set<Node>, ghost c: Ctx<Node>, ghost t: Tree<Node>)
      returns (node: Node)
      requires Here(S, c, t, node0) && t.Bin? && c.Up? && c.up.Up? && c.up.sib.Bin? && temp == c.up.sib.x
      modifies S`red
      ensures Here(S, c.up.up, PushRedUp(c, t), node)
    {
      hide At, Snap;
      Nearby(S, c, t, node0);
      Nearby2(S, c, t, node0);
      SetParentRed(node0.parent, false, S, c, t, node0);
      ghost var c1 := c.(red := false);
      SetUncleRed(temp, false, S, c1, t, node0);
      ghost var c2 := c1.(up := c1.up.(sib := c1.up.sib.(red := false)));
      SetGrandparentRed(node0.parent.parent, true, S, c2, t, node0);
      ghost var c3 := c2.(up := c2.up.(red := true));
      node := node0.parent.parent;
      Out(Snap(S), c3, t, node0, root, sentinel);
      Out(Snap(S), c3.up, Join(c.hole, t, c.x, c.key, false, c.sib), c.x, root, sentinel);
    }

    /** Turn an inner red child of a left parent into an outer one. */
    method StraightenLeft(node0: Node, ghost S: set<Node>, ghost c: Ctx<Node>, ghost t: Tree<Node>)
      returns (node: Node, ghost c': Ctx<Node>, ghost t': Tree<Node>)
      requires Here(S, c, t, node0) && RedRed(c, t)
      modifies this`root, S`left, S`right, S`parent
      ensures Here(S, c', t', node) && RedRed(c', t') && c'.hole == L && c'.up == c.up
              && Listing(c', t') == Listing(c, t)
    {
      node, c', t' := node0, c, t;
      Nearby(S, c, t, node);
      hide At, Snap, RedBelow;
      if node == node.parent.right {
        StraightenLLaws(c, t);
        node := node.parent;
        Out(Snap(S), c, t, node0, root, sentinel);
        RotateLeft(node, S, c.up, Bin(c.sib, c.x, c.key, true, t));
        c', t' := Up(L, t.x, t.key, true, t.r, c.up), Bin(c.sib, c.x, c.key, true, t.l);
        DownLeft(S, c.up, RotL(Bin(c.sib, c.x, c.key, true, t)));
      }
    }

    method StraightenRight(node0: Node, ghost S: set<Node>, ghost c: Ctx<Node>, ghost t: Tree<Node>)
      returns (node: Node, ghost c': Ctx<Node>, ghost t': Tree<Node>)
      requires Here(S, c, t, node0) && RedRed(c, t)
      modifies this`root, S`left, S`right, S`parent
      ensures Here(S, c', t', node) && RedRed(c', t') && c'.hole == R && c'.up == c.up
              && Listing(c', t') == Listing(c, t)
    {
      node, c', t' := node0, c, t;
      Nearby(S, c, t, node);
      hide At, Snap, RedBelow;
      if node == node.parent.left {
        StraightenRLaws(c, t);
        node := node.parent;
        Out(Snap(S), c, t, node0, root, sentinel);
        RotateRight(node, S, c.up, Bin(t, c.x, c.key, true, c.sib));
        c', t' := Up(R, t.x, t.key, true, t.l, c.up), Bin(t.r, c.x, c.key, true, c.sib);
        DownRight(S, c.up, RotR(Bin(t, c.x, c.key, true, c.sib)));
      }
    }

    /** Uncle black, on the right: recolour parent and grandparent and rotate. */
    method UncleBlackRight(node0: Node, ghost S: set<Node>, ghost c0: Ctx<Node>, ghost t0: Tree<Node>)
      returns (node: Node, ghost c': Ctx<Node>, ghost t: Tree<Node>)
      requires Here(S, c0, t0, node0) && RedRed(c0, t0) && c0.up.hole == L && !IsRed(c0.up.sib)
      modifies this`root, S`left, S`right, S`parent, S`red
      ensures Here(S, c', t, node) && RedBelow(c', t) && TakesRed(c') && Listing(c', t) == Listing(c0, t0)
    {
      ghost var c;
      node, c, t := StraightenLeft(node0, S, c0, t0);
      LiftParentLaws(c, t);
      Nearby(S, c, t, node);
      Nearby2(S, c, t, node);
      hide At, Snap, RedBelow;
      SetParentRed(node.parent, false, S, c, t, node);
      ghost var c1 := c.(red := false);
      SetGrandparentRed(node.parent.parent, true, S, c1, t, node);
      ghost var c2 := c1.(up := c1.up.(red := true));
      Out(Snap(S), c2, t, node, root, sentinel);
      Out(Snap(S), c2.up, Bin(t, c.x, c.key, false, c.sib), c.x, root, sentinel);
      RotateRight(node.parent.parent, S, c.up.up, Bin(Bin(t, c.x, c.key, false, c.sib), c.up.x, c.up.key, true,
          c.up.sib));
      c' := LiftParent(c);
      DownLeft(S, c.up.up, Bin(t, c.x, c.key, false, c'.sib));
    }

    method UncleBlackLeft(node0: Node, ghost S: set<Node>, ghost c0: Ctx<Node>, ghost t0: Tree<Node>)
      returns (node: Node, ghost c': Ctx<Node>, ghost t: Tree<Node>)
      requires Here(S, c0, t0, node0) && RedRed(c0, t0) && c0.up.hole == R && !IsRed(c0.up.sib)
      modifies this`root, S`left, S`right, S`parent, S`red
      ensures Here(S, c', t, node) && RedBelow(c', t) && TakesRed(c') && Listing(c', t) == Listing(c0, t0)
    {
      ghost var c;
      node, c, t := StraightenRight(node0, S, c0, t0);
      LiftParentLaws(c, t);
      Nearby(S, c, t, node);
      Nearby2(S, c, t, node);
      hide At, Snap, RedBelow;
      SetParentRed(node.parent, false, S, c, t, node);
      ghost var c1 := c.(red := false);
      SetGrandparentRed(node.parent.parent, true, S, c1, t, node);
      ghost var c2 := c1.(up := c1.up.(red := true));
      Out(Snap(S), c2, t, node, root, sentinel);
      Out(Snap(S), c2.up, Bin(c.sib, c.x, c.key, false, t), c.x, root, sentinel);
      RotateLeft(node.parent.parent, S, c.up.up, Bin(c.up.sib, c.up.x, c.up.key, true,
          Bin(c.sib, c.x, c.key, false, t)));
      c' := LiftParent(c);
      DownRight(S, c.up.up, Bin(c'.sib, c.x, c.key, false, t));
    }

    /** One round of the fixup: a red-red edge is gone or has moved up two steps. */
    method InsertRound(node0: Node, ghost S: set<Node>, ghost c0: Ctx<Node>, ghost t0: Tree<Node>)
      returns (node: Node, ghost c: Ctx<Node>, ghost t: Tree<Node>)
      requires Here(S, c0, t0, node0) && RedBelow(c0, t0) && c0.Up? && c0.red && node0.parent == c0.x
      requires !sentinel.red && sentinel !in S
      modifies this`root, S`left, S`right, S`parent, S`red
      ensures Here(S, c, t, node) && RedBelow(c, t) && Listing(c, t) == Listing(c0, t0)
      ensures TakesRed(c) || SizeC(c) < SizeC(c0)
    {
      GrandparentExists(c0, t0);
      Nearby2(S, c0, t0, node0);
      hide At, Snap, RedBelow, Listing;
      if node0.parent == node0.parent.parent.left {
        var temp := node0.parent.parent.right;
        if temp.red {
          PushRedUpLaws(c0, t0);
          node := UncleRed(node0, temp, S, c0, t0);
          c, t := c0.up.up, PushRedUp(c0, t0);
        } else {
          node, c, t := UncleBlackRight(node0, S, c0, t0);
        }
      } else {
        var temp := node0.parent.parent.left;
        if temp.red {
          PushRedUpLaws(c0, t0);
          node := UncleRed(node0, temp, S, c0, t0);
          c, t := c0.up.up, PushRedUp(c0, t0);
        } else {
          node, c, t := UncleBlackLeft(node0, S, c0, t0);
        }
      }
    }

    method InsertFixup(node0: Node, ghost S: set<Node>, ghost c0: Ctx<Node>, ghost t0: Tree<Node>)
      returns (ghost s: Tree<Node>)
      requires Here(S, c0, t0, node0) && RedBelow(c0, t0) && !sentinel.red && sentinel !in S
      modifies this`root, S`left, S`right, S`parent, S`red
      ensures Here(S, Top, s, root) && RedBlack(s) && Inorder(s) == Listing(c0, t0)
    {
      var node := node0;
      ghost var c, t := c0, t0;
      Nearby(S, c, t, node);
      while node != root && node.parent.red
        invariant Here(S, c, t, node) && RedBelow(c, t) && Listing(c, t) == Listing(c0, t0)
        invariant node == root <==> c.Top?
        invariant c.Up? ==> node.parent == c.x && c.x.red == c.red
        decreases if c.Up? && c.red then 1 + SizeC(c) else 0
      {
        node, c, t := InsertRound(node, S, c, t);
        hide At, Snap, Listing;
        Nearby(S, c, t, node);
      }
      s := BlackenRoot(node, S, c, t);
    }

    method BlackenRoot(ghost node: Node, ghost S: set<Node>, ghost c: Ctx<Node>, ghost t: Tree<Node>)
      returns (ghost s: Tree<Node>)
      requires Here(S, c, t, node) && RedBelow(c, t) && (c.Top? || TakesRed(c))
      modifies S`red
      ensures Here(S, Top, s, root) && RedBlack(s) && Inorder(s) == Listing(c, t)
    {
      hide At, Snap;
      OutToTop(Snap(S), c, t, node, root, sentinel);
      InsertEnds(c, t);
      s := Plug(c, t);
      Nearby(S, Top, s, root);
      SetRed(root, false, S, Top, s);
      s := s.(red := false);
    }

    method InsertFirst(node: Node)
      requires node != sentinel
      modifies this`root, node`left, node`right, node`parent, node`red
      ensures root == node && Here({node}, Top, Bin(Leaf, node, old(node.key), false, Leaf), node)
    {
      node.parent := null;
      node.left := sentinel;
      node.right := sentinel;
      node.red := false;
      root := node;
      Single(Snap({node}), node, sentinel);
    }

    method InsertBelow(node: Node) returns (ghost s: Tree<Node>)
      requires Valid() && node !in nodes && node != sentinel && root != sentinel
      modifies this`root, node`left, node`right, node`parent, node`red, nodes`left, nodes`right, nodes`parent, nodes`red
      ensures Here(nodes + {node}, Top, s, root) && RedBlack(s)
      ensures Inorder(s) == RbShape.Insert(Inorder(shape), Entry(node, old(node.key)))
    {
      ghost var e := Entry(node, node.key);
      var temp, goLeft;
      ghost var c;
      temp, goLeft, c := FindPlace(node);
      InsertHere(c, e, true);
      LeafLaws(c, e);
      assert sentinel !in nodes;
      hide At, Inorder, Elems, Stable, Plug;
      Attach(node, temp, goLeft, c);
      s := InsertFixup(node, nodes + {node}, c, Bin(Leaf, node, e.key, true, Leaf));
    }

    method Insert(node: Node)
      requires Valid() && node !in nodes && node != sentinel
      modifies this, node`left, node`right, node`parent, node`red, nodes`left, nodes`right, nodes`parent, nodes`red
      ensures Valid()
      ensures Inorder(shape) == RbShape.Insert(old(Inorder(shape)), Entry(node, node.key))
      ensures nodes == old(nodes) + {node} && born == old(born)[node := old(clock)]
    {
      ghost var e, s := Entry(node, node.key), Leaf;
      NewcomerStable(e);
      if root == sentinel {
        EmptyListing(e);
        InsertFirst(node);
        s := Bin(Leaf, node, e.key, false, Leaf);
      } else {
        s := InsertBelow(node);
      }
      Record(s, nodes + {node}, born[node := clock]);
    }

    /** Settle on the shape reached. */
    ghost method Record(s: Tree<Node>, S: set<Node>, b: map<Node, nat>)
      requires Here(S, Top, s, root) && RedBlack(s) && !sentinel.red
      requires Stable(Inorder(s), b) && b.Keys == S && forall x <- S :: b[x] <= clock
      modifies this`shape, this`nodes, this`born, this`clock
      ensures Valid() && shape == s && nodes == S && born == b && clock == old(clock) + 1
    {
      hide At, Stable, Inorder, Balanced;
      shape, nodes, born, clock := s, S, b, clock + 1;
    }

    lemma EmptyListing(e: Entry<Node>)
      requires Valid() && root == sentinel
      ensures nodes == {}
      ensures var t := Bin(Leaf, e.x, e.key, false, Leaf);
              RedBlack(t) && Inorder(t) == RbShape.Insert(Inorder(shape), e)
    {
      Nearby(nodes, Top, shape, root);
      assert shape == Leaf;
    }

    lemma NewcomerStable(e: Entry<Node>)
      requires Valid() && e.x !in nodes
      ensures Stable(RbShape.Insert(Inorder(shape), e), born[e.x := clock])
    {
      InorderElems(shape);
      InsertStable(Inorder(shape), e, born, clock);
    }

    // ---- delete

    /** Red sibling: swap colours with the parent and rotate the parent down. */
    method LowerParentLeft(temp: Node, w: Node, ghost S: set<Node>, ghost c: Ctx<Node>, ghost t: Tree<Node>)
      requires Here(S, c, t, temp) && c.Up? && c.hole == L && temp.parent == c.x && sentinel !in S
      requires c.sib.Bin? && w == c.sib.x
      modifies this`root, S`left, S`right, S`parent, S`red
      ensures Here(S, LowerParent(c), t, temp) && temp.parent == c.x
    {
      hide At, Snap;
      Nearby(S, c, t, temp);
      SetSiblingRed(w, false, S, c, t, temp);
      ghost var c1 := c.(sib := c.sib.(red := false));
      SetParentRed(temp.parent, true, S, c1, t, temp);
      Out(Snap(S), c1.(red := true), t, temp, root, sentinel);
      RotateLeft(temp.parent, S, c.up, Bin(t, c.x, c.key, true, c1.sib));
      DownLeft(S, c.up, Bin(Bin(t, c.x, c.key, true, c.sib.l), c.sib.x, c.sib.key, false, c.sib.r));
      DownLeft(S, LowerParent(c).up, Bin(t, c.x, c.key, true, c.sib.l));
      Nearby(S, LowerParent(c), t, temp);
    }

    /** See to it that the right sibling is black. */
    method BlackenRightSibling(temp: Node, ghost S: set<Node>, ghost c: Ctx<Node>, ghost t: Tree<Node>)
      returns (w: Node, ghost c': Ctx<Node>)
      requires Here(S, c, t, temp) && ShortBlack(c, t) && c.hole == L && temp.parent == c.x && sentinel !in S
      modifies this`root, S`left, S`right, S`parent, S`red
      ensures Here(S, c', t, temp) && ShortBlack(c', t) && c'.hole == L && temp.parent == c'.x
      ensures c'.sib.Bin? && !c'.sib.red && w == c'.sib.x
      ensures SizeC(c') == SizeC(c) && Listing(c', t) == Listing(c, t)
    {
      SiblingExists(c, t);
      Nearby(S, c, t, temp);
      c' := c;
      w := temp.parent.right;
      if w.red {
        LowerParentLaws(c, t);
        c' := LowerParent(c);
        SiblingExists(c', t);
        hide At, Snap, Short, Listing;
        LowerParentLeft(temp, w, S, c, t);
        Nearby(S, c', t, temp);
        w := temp.parent.right;
      }
    }

    /** Black sibling with a red near child only: rotate that child above it. */
    method TurnRightSibling(temp: Node, w: Node, ghost S: set<Node>, ghost c: Ctx<Node>, ghost t: Tree<Node>)
      requires Here(S, c, t, temp) && c.Up? && c.hole == L && temp.parent == c.x && sentinel !in S
      requires c.sib.Bin? && w == c.sib.x && c.sib.l.Bin?
      modifies this`root, S`left, S`right, S`parent, S`red
      ensures Here(S, TurnSibling(c), t, temp) && temp.parent == c.x
    {
      hide At, Snap;
      Nearby(S, c, t, temp);
      Nephews(S, c, t, temp);
      SetNephewRed(w.left, L, false, S, c, t, temp);
      ghost var c1 := WithNephew(c, L, false);
      SetSiblingRed(w, true, S, c1, t, temp);
      ghost var c2 := c1.(sib := c1.sib.(red := true));
      Across(Snap(S), c2, t, temp, root, sentinel);
      RotateRight(w, S, Opposite(c2, t), c2.sib);
      ghost var o := Opposite(c2, t);
      Across(Snap(S), o, RotR(c2.sib), c2.sib.l.x, root, sentinel);
      Nearby(S, TurnSibling(c), t, Snap(S)[c.x].left);
    }

    /** Black sibling with a red far child: the sibling takes the parent's place. */
    method LiftRightSibling(temp: Node, w: Node, ghost S: set<Node>, ghost c: Ctx<Node>, ghost t: Tree<Node>)
      requires Here(S, c, t, temp) && c.Up? && c.hole == L && temp.parent == c.x
      requires c.sib.Bin? && w == c.sib.x && c.sib.r.Bin?
      modifies this`root, S`left, S`right, S`parent, S`red
      ensures Here(S, c.up, LiftSibling(c, t), w)
    {
      hide At, Snap;
      Nearby(S, c, t, temp);
      Nephews(S, c, t, temp);
      SetSiblingRed(w, temp.parent.red, S, c, t, temp);
      ghost var c1 := c.(sib := c.sib.(red := c.red));
      SetParentRed(temp.parent, false, S, c1, t, temp);
      ghost var c2 := c1.(red := false);
      SetNephewRed(w.right, R, false, S, c2, t, temp);
      ghost var c3 := WithNephew(c2, R, false);
      Out(Snap(S), c3, t, temp, root, sentinel);
      RotateLeft(temp.parent, S, c.up, Bin(t, c.x, c.key, false, c3.sib));
    }

    /** One round of the fixup for a short left subtree. */
    method FixLeft(temp0: Node, ghost S: set<Node>, ghost c0: Ctx<Node>, ghost t0: Tree<Node>)
      returns (temp: Node, ghost c: Ctx<Node>, ghost t: Tree<Node>)
      requires Here(S, c0, t0, temp0) && ShortBlack(c0, t0) && c0.hole == L && temp0.parent == c0.x
      requires sentinel !in S && !sentinel.red
      modifies this`root, S`left, S`right, S`parent, S`red
      ensures Here(S, c, t, temp) && Short(c, t) && Listing(c, t) == Listing(c0, t0) && SizeC(c) < SizeC(c0)
      ensures t.Bin?
    {
      hide At, Snap, Short, Listing;
      t := t0;
      var w;
      w, c := BlackenRightSibling(temp0, S, c0, t0);
      Nephews(S, c, t, temp0);
      if !w.left.red && !w.right.red {
        PaleSiblingLaws(c, t);
        SetSiblingRed(w, true, S, c, t, temp0);
        temp := temp0.parent;
        Out(Snap(S), c.(sib := c.sib.(red := true)), t, temp0, root, sentinel);
        c, t := c.up, PaleSibling(c, t);
      } else {
        if !w.right.red {
          TurnSiblingLaws(c, t);
          TurnRightSibling(temp0, w, S, c, t);
          c := TurnSibling(c);
          Nearby(S, c, t, temp0);
          w := temp0.parent.right;
        }
        LiftSiblingLaws(c, t);
        LiftRightSibling(temp0, w, S, c, t);
        c, t := ToTheTop(S, c.up, LiftSibling(c, t), w);
        temp := root;
      }
    }

    method LowerParentRight(temp: Node, w: Node, ghost S: set<Node>, ghost c: Ctx<Node>, ghost t: Tree<Node>)
      requires Here(S, c, t, temp) && c.Up? && c.hole == R && temp.parent == c.x && sentinel !in S
      requires c.sib.Bin? && w == c.sib.x
      modifies this`root, S`left, S`right, S`parent, S`red
      ensures Here(S, LowerParent(c), t, temp) && temp.parent == c.x
    {
      hide At, Snap;
      Nearby(S, c, t, temp);
      SetSiblingRed(w, false, S, c, t, temp);
      ghost var c1 := c.(sib := c.sib.(red := false));
      SetParentRed(temp.parent, true, S, c1, t, temp);
      Out(Snap(S), c1.(red := true), t, temp, root, sentinel);
      RotateRight(temp.parent, S, c.up, Bin(c1.sib, c.x, c.key, true, t));
      DownRight(S, c.up, Bin(c.sib.l, c.sib.x, c.sib.key, false, Bin(c.sib.r, c.x, c.key, true, t)));
      DownRight(S, LowerParent(c).up, Bin(c.sib.r, c.x, c.key, true, t));
      Nearby(S, LowerParent(c), t, temp);
    }

    /** See to it that the left sibling is black. */
    method BlackenLeftSibling(temp: Node, ghost S: set<Node>, ghost c: Ctx<Node>, ghost t: Tree<Node>)
      returns (w: Node, ghost c': Ctx<Node>)
      requires Here(S, c, t, temp) && ShortBlack(c, t) && c.hole == R && temp.parent == c.x && sentinel !in S
      modifies this`root, S`left, S`right, S`parent, S`red
      ensures Here(S, c', t, temp) && ShortBlack(c', t) && c'.hole == R && temp.parent == c'.x
      ensures c'.sib.Bin? && !c'.sib.red && w == c'.sib.x
      ensures SizeC(c') == SizeC(c) && Listing(c', t) == Listing(c, t)
    {
      SiblingExists(c, t);
      Nearby(S, c, t, temp);
      c' := c;
      w := temp.parent.left;
      if w.red {
        LowerParentLaws(c, t);
        c' := LowerParent(c);
        SiblingExists(c', t);
        hide At, Snap, Short, Listing;
        LowerParentRight(temp, w, S, c, t);
        Nearby(S, c', t, temp);
        w := temp.parent.left;
      }
    }

    method TurnLeftSibling(temp: Node, w: Node, ghost S: set<Node>, ghost c: Ctx<Node>, ghost t: Tree<Node>)
      requires Here(S, c, t, temp) && c.Up? && c.hole == R && temp.parent == c.x && sentinel !in S
      requires c.sib.Bin? && w == c.sib.x && c.sib.r.Bin?
      modifies this`root, S`left, S`right, S`parent, S`red
      ensures Here(S, TurnSibling(c), t, temp) && temp.parent == c.x
    {
      hide At, Snap;
      Nearby(S, c, t, temp);
      Nephews(S, c, t, temp);
      SetNephewRed(w.right, R, false, S, c, t, temp);
      ghost var c1 := WithNephew(c, R, false);
      SetSiblingRed(w, true, S, c1, t, temp);
      ghost var c2 := c1.(sib := c1.sib.(red := true));
      Across(Snap(S), c2, t, temp, root, sentinel);
      RotateLeft(w, S, Opposite(c2, t), c2.sib);
      ghost var o := Opposite(c2, t);
      Across(Snap(S), o, RotL(c2.sib), c2.sib.r.x, root, sentinel);
      Nearby(S, TurnSibling(c), t, Snap(S)[c.x].right);
    }

    method LiftLeftSibling(temp: Node, w: Node, ghost S: set<Node>, ghost c: Ctx<Node>, ghost t: Tree<Node>)
      requires Here(S, c, t, temp) && c.Up? && c.hole == R && temp.parent == c.x
      requires c.sib.Bin? && w == c.sib.x && c.sib.l.Bin?
      modifies this`root, S`left, S`right, S`parent, S`red
      ensures Here(S, c.up, LiftSibling(c, t), w)
    {
      hide At, Snap;
      Nearby(S, c, t, temp);
      Nephews(S, c, t, temp);
      SetSiblingRed(w, temp.parent.red, S, c, t, temp);
      ghost var c1 := c.(sib := c.sib.(red := c.red));
      SetParentRed(temp.parent, false, S, c1, t, temp);
      ghost var c2 := c1.(red := false);
      SetNephewRed(w.left, L, false, S, c2, t, temp);
      ghost var c3 := WithNephew(c2, L, false);
      Out(Snap(S), c3, t, temp, root, sentinel);
      RotateRight(temp.parent, S, c.up, Bin(c3.sib, c.x, c.key, false, t));
    }

    /** One round of the fixup for a short right subtree. */
    method FixRight(temp0: Node, ghost S: set<Node>, ghost c0: Ctx<Node>, ghost t0: Tree<Node>)
      returns (temp: Node, ghost c: Ctx<Node>, ghost t: Tree<Node>)
      requires Here(S, c0, t0, temp0) && ShortBlack(c0, t0) && c0.hole == R && temp0.parent == c0.x
      requires sentinel !in S && !sentinel.red
      modifies this`root, S`left, S`right, S`parent, S`red
      ensures Here(S, c, t, temp) && Short(c, t) && Listing(c, t) == Listing(c0, t0) && SizeC(c) < SizeC(c0)
      ensures t.Bin?
    {
      hide At, Snap, Short, Listing;
      t := t0;
      var w;
      w, c := BlackenLeftSibling(temp0, S, c0, t0);
      Nephews(S, c, t, temp0);
      if !w.left.red && !w.right.red {
        PaleSiblingLaws(c, t);
        SetSiblingRed(w, true, S, c, t, temp0);
        temp := temp0.parent;
        Out(Snap(S), c.(sib := c.sib.(red := true)), t, temp0, root, sentinel);
        c, t := c.up, PaleSibling(c, t);
      } else {
        if !w.left.red {
          TurnSiblingLaws(c, t);
          TurnLeftSibling(temp0, w, S, c, t);
          c := TurnSibling(c);
          Nearby(S, c, t, temp0);
          w := temp0.parent.left;
        }
        LiftSiblingLaws(c, t);
        LiftLeftSibling(temp0, w, S, c, t);
        c, t := ToTheTop(S, c.up, LiftSibling(c, t), w);
        temp := root;
      }
    }

    /** Look at the whole tree from now on. */
    ghost method ToTheTop(S: set<Node>, c0: Ctx<Node>, t0: Tree<Node>, x: Node) returns (c: Ctx<Node>, t: Tree<Node>)
      requires Here(S, c0, t0, x) && t0.Bin? && RedBlack(Plug(c0, t0))
      ensures c == Top && t == Plug(c0, t0) && t.Bin?
      ensures Here(S, c, t, root) && Short(c, t) && Listing(c, t) == Listing(c0, t0) && SizeC(c) == 0
    {
      c, t := Top, Plug(c0, t0);
      OutToTop(Snap(S), c0, t0, x, root, sentinel);
      PlugBin(c0, t0);
      WholeIsShort(t);
    }

    /** rbtree_node_min: follow left links; cr is the way down from the start. */
    method NodeMin(x: Node, ghost S: set<Node>, ghost c: Ctx<Node>, ghost t: Tree<Node>)
      returns (m: Node, ghost cr: Ctx<Node>, ghost mt: Tree<Node>)
      requires Here(S, c, t, x) && t.Bin?
      ensures Here(S, Append(cr, c), mt, m) && mt.Bin? && mt.l.Leaf?
      ensures AllLeft(cr) && Plug(cr, mt) == t
    {
      m, cr, mt := x, Top, t;
      LeftLink(S, c, mt, m);
      while m.left != sentinel
        invariant Here(S, Append(cr, c), mt, m) && mt.Bin? && AllLeft(cr) && Plug(cr, mt) == t
        invariant m.left == (if mt.l.Bin? then mt.l.x else sentinel) && (mt.l.Bin? ==> mt.l.x != sentinel)
        decreases mt
      {
        DownLeft(S, Append(cr, c), mt);
        m := m.left;
        cr, mt := Up(L, mt.x, mt.key, mt.red, mt.r, cr), mt.l;
        LeftLink(S, Append(cr, c), mt, m);
      }
    }

    lemma LeftLink(S: set<Node>, c: Ctx<Node>, t: Tree<Node>, x: Node)
      requires Here(S, c, t, x) && t.Bin?
      ensures x == t.x && x in S && x.left == (if t.l.Bin? then t.l.x else sentinel) && (t.l.Bin? ==> t.l.x != sentinel)
      ensures x.right == (if t.r.Bin? then t.r.x else sentinel) && (t.r.Bin? ==> t.r.x != sentinel)
    {
      var h := Snap(S);
      assert x in Elems(t) && h[x] == x.Fields();
      Face(h, t.l, h[x].left, x, sentinel);
      Face(h, t.r, h[x].right, x, sentinel);
    }

    /** The first writes of a deletion: temp, the only child of subst, takes its place, and
        gets the parent it will have once subst stands where node does. */
    method Detach(node: Node, subst: Node, temp: Node, ghost S: set<Node>, ghost p: Node, ghost pp: Node)
      requires sentinel !in S && subst in S && p in S && subst.parent == p && p != subst
      requires p.left == subst <==> p.right != subst
      requires (temp == sentinel || temp in S) && temp != subst && temp != p
      requires pp == if subst != node && p == node then subst else p
      modifies p`left, p`right, temp`parent
      ensures Unlinked(old(Snap(S)), Snap(S - {subst}), subst, temp, pp)
      ensures temp.parent == pp && subst.Fields() == old(subst.Fields())
    {
      if subst == subst.parent.left {
        subst.parent.left := temp;
      } else {
        subst.parent.right := temp;
      }
      if subst == node {
        temp.parent := subst.parent;
      } else if subst.parent == node {
        temp.parent := subst;
      } else {
        temp.parent := subst.parent;
      }
    }

    /** subst takes over the links and the colour of node, and is what hangs below its parent. */
    method TakeLinks(node: Node, subst: Node, ghost S: set<Node>)
      requires sentinel !in S && node in S && subst !in S && subst != sentinel
      requires node != root ==>
                 node.parent in S && node.parent != node && (node.parent.left == node <==> node.parent.right != node)
      modifies this`root, S`left, S`right, subst`left, subst`right, subst`parent, subst`red
      ensures root == if old(root) == node then subst else old(root)
      ensures HalfReplaced(old(Snap(S)), Snap(S - {node} + {subst}), node, subst, old(subst.key), old(root) == node)
    {
      subst.left := node.left;
      subst.right := node.right;
      subst.parent := node.parent;
      subst.red := node.red;
      if node == root {
        root := subst;
      } else {
        if node == node.parent.left {
          node.parent.left := subst;
        } else {
          node.parent.right := subst;
        }
      }
    }

    /** The children of a node get to know it. */
    method Adopt(subst: Node, ghost S: set<Node>)
      requires sentinel !in S && subst in S
      requires subst.left == sentinel || (subst.left in S && subst.left != subst)
      requires subst.right == sentinel || (subst.right in S && subst.right != subst)
      modifies S`parent
      ensures Adopted(old(Snap(S)), Snap(S), subst)
    {
      if subst.left != sentinel {
        subst.left.parent := subst;
      }
      if subst.right != sentinel {
        subst.right.parent := subst;
      }
    }

    /** The rest of lines 231-252: subst takes the place of node. */
    method TakePlace(node: Node, subst: Node, ghost S: set<Node>)
      requires sentinel !in S && node in S && subst !in S && subst != sentinel
      requires node.left == sentinel || (node.left in S && node.left != node)
      requires node.right == sentinel || (node.right in S && node.right != node)
      requires node.left == node.right ==> node.left == sentinel
      requires node != root ==>
                 node.parent in S && node.parent != node && node.parent != node.left && node.parent != node.right
                 && (node.parent.left == node <==> node.parent.right != node)
      modifies this`root, S`left, S`right, S`parent, subst`left, subst`right, subst`parent, subst`red
      ensures root == if old(root) == node then subst else old(root)
      ensures Replaced(old(Snap(S)), Snap(S - {node} + {subst}), node, subst, old(subst.key), old(root) == node)
    {
      ghost var h, T := Snap(S), S - {node} + {subst};
      TakeLinks(node, subst, S);
      ghost var h1 := Snap(T);
      Adopt(subst, T);
      BothHalves(h, h1, Snap(T), node, subst, old(subst.key), old(root) == node);
    }

    /** Take out a node with at most one child that is not the root. */
    method SpliceOuter(node: Node, temp: Node, ghost S: set<Node>, ghost c: Ctx<Node>, ghost t: Tree<Node>)
      requires t.Bin? && c.Up? && (t.l.Leaf? || t.r.Leaf?) && Here(S, c, t, node)
      requires temp == (if t.l.Leaf? then node.right else node.left)
      modifies S`left, S`right, S`parent, sentinel`parent
      ensures Here(S - {node}, c, OnlyChild(t), temp) && temp.parent == c.x
    {
      ghost var h := Snap(S);
      Unlinkable(h, c, t, root, sentinel);
      Nearby(S, c, t, node);
      SentinelOutside(S, c, t, node);
      hide At, Elems, ElemsC;
      Detach(node, node, temp, S, c.x, c.x);
      UnlinkedAt(h, Snap(S - {node}), c, t, temp, c.x, root, sentinel);
    }

    lemma SentinelOutside(S: set<Node>, c: Ctx<Node>, t: Tree<Node>, x: Node?)
      requires Here(S, c, t, x)
      ensures sentinel !in S
    {}

    /** Take out a node with two children: subst, the smallest node on its right, at the end
        of cr, is unlinked and then put in its place. */
    method SpliceInner(node: Node, subst: Node, temp: Node, ghost S: set<Node>, ghost o: Ctx<Node>,
          ghost cr: Ctx<Node>, ghost m: Tree<Node>)
      requires o.Up? && o.hole == R && o.x == node && m.Bin? && m.l.Leaf? && Here(S, Append(cr, o), m, subst)
      requires temp == subst.right
      modifies this`root, S`left, S`right, S`parent, S`red, sentinel`parent
      ensures Here(S - {node}, Append(cr, o.(x := subst, key := m.key)), m.r, temp)
      ensures temp.parent == if cr.Up? then cr.x else subst
    {
      hide At, Loose, Elems, ElemsC, Apart, DistinctC, Snap, Append;
      SpliceStart(node, subst, temp, S, o, cr, m);
      SpliceEnd(node, subst, temp, S - {subst}, o, cr, m);
      assert S - {subst} - {node} + {subst} == S - {node};
    }

    method SpliceStart(node: Node, subst: Node, temp: Node, ghost S: set<Node>, ghost o: Ctx<Node>,
          ghost cr: Ctx<Node>, ghost m: Tree<Node>)
      requires o.Up? && o.hole == R && o.x == node && m.Bin? && m.l.Leaf? && Here(S, Append(cr, o), m, subst)
      requires temp == subst.right
      modifies S`left, S`right, S`parent, sentinel`parent
      ensures Loose(Snap(S - {subst}), Append(cr, o), m.r, temp, if cr.Up? then cr.x else subst, root, sentinel)
      ensures temp.parent == (if cr.Up? then cr.x else subst)
      ensures subst in S && subst != node && subst != sentinel && subst.key == m.key
    {
      ghost var h, c2 := Snap(S), Append(cr, o);
      ghost var pp := if cr.Up? then cr.x else subst;
      AppendElems(cr, o);
      Apartness(S, c2, m, subst);
      Unlinkable(h, c2, m, root, sentinel);
      Nearby(S, c2, m, subst);
      assert node in ElemsC(o) && subst in Elems(m) && (cr.Up? ==> cr.x in ElemsC(cr));
      hide At, Loose, Elems, ElemsC, Apart, DistinctC;
      Detach(node, subst, temp, S, c2.x, pp);
      UnlinkedAt(h, Snap(S - {subst}), c2, m, temp, pp, root, sentinel);
    }

    lemma AppendHead(cr: Ctx<Node>, o: Ctx<Node>)
      requires o.Up?
      ensures Append(cr, o).Up? && Append(cr, o).x == if cr.Up? then cr.x else o.x
    {}

    lemma LooseFace(h: Cells, c: Ctx<Node>, t: Tree<Node>, x: Node, p: Node?)
      requires Loose(h, c, t, x, p, root, sentinel)
      ensures t.Leaf? ==> x == sentinel && sentinel !in h
    {}

    lemma Apartness(S: set<Node>, c: Ctx<Node>, t: Tree<Node>, x: Node?)
      requires Here(S, c, t, x)
      ensures Apart(c, t) && sentinel !in S && S == ElemsC(c) + Elems(t)
    {}

    method SpliceEnd(node: Node, subst: Node, temp: Node, ghost S: set<Node>, ghost o: Ctx<Node>,
          ghost cr: Ctx<Node>, ghost m: Tree<Node>)
      requires o.Up? && o.hole == R && o.x == node && m.Bin?
      requires Loose(Snap(S), Append(cr, o), m.r, temp, if cr.Up? then cr.x else subst, root, sentinel)
      requires subst !in S && subst != sentinel && subst.key == m.key
      requires temp.parent == if cr.Up? then cr.x else subst
      modifies this`root, S`left, S`right, S`parent, subst`left, subst`right, subst`parent, subst`red
      ensures Here(S - {node} + {subst}, Append(cr, o.(x := subst, key := m.key)), m.r, temp)
      ensures temp.parent == if cr.Up? then cr.x else subst
    {
      hide Loose, At, Append;
      ghost var h := Snap(S);
      Replaceable(h, cr, o, m.r, temp, if cr.Up? then cr.x else subst, root, sentinel);
      LooseFace(h, Append(cr, o), m.r, temp, if cr.Up? then cr.x else subst);
      TakePlace(node, subst, S);
      ghost var S', c' := S - {node} + {subst}, Append(cr, o.(x := subst, key := m.key));
      ReplacedAt(h, Snap(S'), cr, o, m.r, temp, subst, m.key, old(root), root, sentinel);
      Nearby(S', c', m.r, temp);
      AppendHead(cr, o.(x := subst, key := m.key));
    }

    /** One round of the fixup, on whichever side the short subtree hangs. */
    method DeleteRound(temp0: Node, ghost S: set<Node>, ghost c0: Ctx<Node>, ghost t0: Tree<Node>)
      returns (temp: Node, ghost c: Ctx<Node>, ghost t: Tree<Node>)
      requires Here(S, c0, t0, temp0) && ShortBlack(c0, t0) && temp0.parent == c0.x
      requires sentinel !in S && !sentinel.red
      modifies this`root, S`left, S`right, S`parent, S`red
      ensures Here(S, c, t, temp) && Short(c, t) && Listing(c, t) == Listing(c0, t0) && SizeC(c) < SizeC(c0)
      ensures t.Bin?
    {
      hide At, Snap, Short, Listing;
      SiblingExists(c0, t0);
      Nearby(S, c0, t0, temp0);
      if temp0 == temp0.parent.left {
        temp, c, t := FixLeft(temp0, S, c0, t0);
      } else {
        temp, c, t := FixRight(temp0, S, c0, t0);
      }
    }

    method DeleteFixup(temp0: Node, ghost S: set<Node>, ghost c0: Ctx<Node>, ghost t0: Tree<Node>)
      returns (ghost s: Tree<Node>)
      requires Here(S, c0, t0, temp0) && Short(c0, t0) && (c0.Up? ==> temp0.parent == c0.x)
      requires sentinel !in S && !sentinel.red
      modifies this`root, S`left, S`right, S`parent, S`red, sentinel`red
      ensures Here(S, Top, s, root) && RedBlack(s) && Inorder(s) == Listing(c0, t0) && !sentinel.red
    {
      hide At, Snap, Listing;
      var temp := temp0;
      ghost var c, t := c0, t0;
      Nearby(S, c, t, temp);
      while temp != root && !temp.red
        invariant Here(S, c, t, temp) && Short(c, t) && Listing(c, t) == Listing(c0, t0)
        invariant !sentinel.red && (temp == root <==> c.Top?)
        invariant if t.Bin? then temp == t.x && temp.red == t.red else temp == sentinel
        invariant c.Up? ==> temp.parent == c.x
        decreases SizeC(c)
      {
        temp, c, t := DeleteRound(temp, S, c, t);
        Nearby(S, c, t, temp);
      }
      s := BlackenHere(temp, S, c, t);
    }

    method BlackenHere(temp: Node, ghost S: set<Node>, ghost c: Ctx<Node>, ghost t: Tree<Node>)
      returns (ghost s: Tree<Node>)
      requires Here(S, c, t, temp) && Short(c, t) && (c.Top? || IsRed(t)) && !sentinel.red && sentinel !in S
      modifies S`red, sentinel`red
      ensures Here(S, Top, s, root) && RedBlack(s) && Inorder(s) == Listing(c, t) && !sentinel.red
    {
      hide At, Snap;
      DeleteEnds(c, t);
      Nearby(S, c, t, temp);
      BlackenTemp(temp, S, c, t);
      s := Plug(c, Blackened(t));
      OutToTop(Snap(S), c, Blackened(t), temp, root, sentinel);
    }

    method BlackenTemp(temp: Node, ghost S: set<Node>, ghost c: Ctx<Node>, ghost t: Tree<Node>)
      requires Here(S, c, t, temp) && !sentinel.red && sentinel !in S
      modifies temp`red
      ensures Here(S, c, Blackened(t), temp) && !sentinel.red
    {
      hide At;
      ghost var h := Snap(S);
      Nearby(S, c, t, temp);
      temp.red := false;
      if t.Bin? {
        assert Snap(S) == h[temp := h[temp].(red := false)];
        Painted(h, Snap(S), c, t, temp, false, root, sentinel);
      } else {
        assert Snap(S) == h;
      }
    }

    /** subst is node itself when it lacks a child, and otherwise the node m at the end of the
        left links cr below its right child; temp is its only child. */
    ghost predicate Chosen(node: Node, subst: Node, temp: Node, S: set<Node>, c: Ctx<Node>, t: Tree<Node>,
          cr: Ctx<Node>, m: Tree<Node>)
      reads this`root, S, node, subst
    {
      && Here(S, c, t, node) && t.Bin?
      && (subst == node <==> t.l.Leaf? || t.r.Leaf?)
      && (subst == node ==> temp == if t.l.Leaf? then node.right else node.left)
      && (subst != node ==>
            && m.Bin? && m.l.Leaf? && AllLeft(cr) && Plug(cr, m) == t.r && temp == subst.right && subst == m.x
            && Here(S, Append(cr, Up(R, t.x, t.key, t.red, t.l, c)), m, subst))
    }

    /** The node that is really taken out of its place, and its only child. */
    method Choose(node: Node, ghost c: Ctx<Node>, ghost t: Tree<Node>)
      returns (subst: Node, temp: Node, ghost cr: Ctx<Node>, ghost m: Tree<Node>)
      requires Here(nodes, c, t, node) && t.Bin?
      ensures Chosen(node, subst, temp, nodes, c, t, cr, m)
      ensures subst.red == if subst == node then t.red else m.red
      ensures subst == root ==>
                && node == root && c.Top? && (t.l.Leaf? || t.r.Leaf?)
                && temp == if t.l.Leaf? then node.right else node.left
      ensures subst != root && subst == node ==> c.Up?
    {
      cr, m := Top, t;
      LeftLink(nodes, c, t, node);
      Nearby(nodes, c, t, node);
      if node.left == sentinel {
        temp := node.right;
        subst := node;
      } else if node.right == sentinel {
        temp := node.left;
        subst := node;
      } else {
        ghost var o := Up(R, t.x, t.key, t.red, t.l, c);
        DownRight(nodes, c, t);
        subst, cr, m := NodeMin(node.right, nodes, o, t.r);
        AppendHead(cr, o);
        Nearby(nodes, Append(cr, o), m, subst);
        InOther(c, t, cr, m, subst);
        temp := subst.right;
      }
    }

    lemma InOther(c: Ctx<Node>, t: Tree<Node>, cr: Ctx<Node>, m: Tree<Node>, x: Node?)
      requires t.Bin? && Here(nodes, Append(cr, Up(R, t.x, t.key, t.red, t.l, c)), m, x) && m.Bin?
      ensures x == m.x != t.x && x.right != null
    {
      var o := Up(R, t.x, t.key, t.red, t.l, c);
      AppendElems(cr, o);
      assert t.x in ElemsC(o) && m.x in Elems(m);
      LeftLink(nodes, Append(cr, o), m, x);
    }

    /** Both kinds of unlinking, below the root. */
    method Unlink(node: Node, subst: Node, temp: Node, ghost c: Ctx<Node>, ghost t: Tree<Node>,
          ghost cr: Ctx<Node>, ghost m: Tree<Node>)
      returns (ghost c': Ctx<Node>, ghost u: Tree<Node>)
      requires Chosen(node, subst, temp, nodes, c, t, cr, m) && Plug(c, t) == shape && RedBlack(shape)
      requires subst == node ==> c.Up?
      modifies this`root, nodes`left, nodes`right, nodes`parent, nodes`red, sentinel`parent
      ensures Here(nodes - {node}, c', u, temp) && c'.Up? && temp.parent == c'.x && temp != node
      ensures Settled(c', u, if subst == node then t.red else m.red)
      ensures Listing(c', u) == Remove(Inorder(shape), node)
    {
      hide At, Snap, Elems, Settled, RedBlack, Inorder, Apart;
      Apartness(nodes, c, t, node);
      Nearby(nodes, c, t, node);
      if subst == node {
        OuterLaws(c, t);
        RemoveOuter(c, t);
        SpliceOuter(node, temp, nodes, c, t);
        c', u := c, OnlyChild(t);
      } else {
        InnerLaws(c, t, cr, m);
        RemoveInner(c, t, cr, m);
        ghost var o := Up(R, t.x, t.key, t.red, t.l, c);
        SpliceInner(node, subst, temp, nodes, o, cr, m);
        c', u := Append(cr, o.(x := subst, key := m.key)), m.r;
      }
      Nearby(nodes - {node}, c', u, temp);
    }

    /** Take out the root when it has at most one child. The new root keeps a parent link to
        the node taken out; no part of the tree's invariant looks at it. */
    method DeleteRoot(node: Node, temp: Node, ghost t: Tree<Node>) returns (ghost s: Tree<Node>)
      requires RedBlack(t) && Here(nodes, Top, t, node) && t.Bin? && (t.l.Leaf? || t.r.Leaf?)
      requires temp == (if t.l.Leaf? then node.right else node.left) && !sentinel.red
      modifies this`root, nodes`red, sentinel`red
      ensures Here(nodes - {node}, Top, s, root) && !sentinel.red
      ensures RedBlack(s) && Inorder(s) == Remove(Inorder(t), node)
    {
      ghost var h := Snap(nodes);
      Nearby(nodes, Top, t, node);
      Apartness(nodes, Top, t, node);
      LeftLink(nodes, Top, t, node);
      ghost var u := OnlyChild(t);
      assert u.Bin? ==> u.x in Elems(t);
      RootLaws(t);
      s := Blackened(u);
      hide At, Elems;
      root := temp;
      temp.red := false;
      UnlinkedRoot(h, Snap(nodes - {node}), t, temp, old(root), sentinel);
    }

    lemma Locate(node: Node) returns (c: Ctx<Node>, t: Tree<Node>)
      requires Valid() && node in nodes
      ensures Here(nodes, c, t, node) && t.Bin? && t.x == node && Plug(c, t) == shape && (c.Top? ==> t == shape)
    {
      DownTo(Snap(nodes), Top, shape, node, root, sentinel);
      var p := PathTo(shape, node, Top);
      c, t := p.0, p.1;
    }

    /** Rebalance if the place left behind is short of a black. */
    method Finish(temp: Node, red: bool, ghost S: set<Node>, ghost c: Ctx<Node>, ghost u: Tree<Node>)
      returns (ghost s: Tree<Node>)
      requires Here(S, c, u, temp) && c.Up? && temp.parent == c.x && Settled(c, u, red)
      requires sentinel !in S && !sentinel.red
      modifies this`root, S`left, S`right, S`parent, S`red, sentinel`red
      ensures Here(S, Top, s, root) && RedBlack(s) && Inorder(s) == Listing(c, u) && !sentinel.red
    {
      if red {
        OutToTop(Snap(S), c, u, temp, root, sentinel);
        s := Plug(c, u);
        return;
      }
      s := DeleteFixup(temp, S, c, u);
    }

    lemma ChosenOutside(node: Node, subst: Node, temp: Node, c: Ctx<Node>, t: Tree<Node>, cr: Ctx<Node>, m: Tree<Node>)
      requires Chosen(node, subst, temp, nodes, c, t, cr, m)
      ensures sentinel !in nodes
    {}

    /** Take out a node other than a root with at most one child. */
    method DeleteBelow(node: Node, subst: Node, temp: Node, ghost c: Ctx<Node>, ghost t: Tree<Node>,
          ghost cr: Ctx<Node>, ghost m: Tree<Node>)
      returns (ghost s: Tree<Node>)
      requires Chosen(node, subst, temp, nodes, c, t, cr, m) && Plug(c, t) == shape && RedBlack(shape) && !sentinel.red
      requires node in nodes && (subst == node ==> c.Up?) && subst.red == if subst == node then t.red else m.red
      modifies this`root, nodes`left, nodes`right, nodes`parent, nodes`red, node`key, sentinel`parent, sentinel`red
      ensures Here(nodes - {node}, Top, s, root) && RedBlack(s) && !sentinel.red
      ensures Inorder(s) == Remove(Inorder(shape), node)
      ensures node.left == null && node.right == null && node.parent == null && node.key == 0
    {
      hide At, Snap, Inorder, Elems, Balanced, Settled, Plug, Append, Apart, Chosen, RedBlack;
      var red := subst.red;
      ChosenOutside(node, subst, temp, c, t, cr, m);
      ghost var c', u := Unlink(node, subst, temp, c, t, cr, m);
      Clear(node);
      s := Finish(temp, red, nodes - {node}, c', u);
    }

    method TakeOut(node: Node, ghost c: Ctx<Node>, ghost t: Tree<Node>) returns (ghost s: Tree<Node>)
      requires Here(nodes, c, t, node) && t.Bin? && Plug(c, t) == shape && (c.Top? ==> t == shape)
      requires RedBlack(shape) && !sentinel.red && node in nodes
      modifies this`root, nodes`left, nodes`right, nodes`parent, nodes`red, node`key, sentinel`parent, sentinel`red
      ensures Here(nodes - {node}, Top, s, root) && RedBlack(s) && !sentinel.red
      ensures Inorder(s) == Remove(Inorder(shape), node)
      ensures node.left == null && node.right == null && node.parent == null && node.key == 0
    {
      hide At, Snap, Inorder, Elems, Plug, Append, Chosen, RedBlack;
      var subst, temp;
      ghost var cr, m;
      subst, temp, cr, m := Choose(node, c, t);
      if subst == root {
        s := DeleteRoot(node, temp, t);
        Clear(node);
      } else {
        s := DeleteBelow(node, subst, temp, c, t, cr, m);
      }
    }

    /** nc_rbtree_delete: that node goes, whatever nodes have the same key, and all others keep
        their order; which node stands where in the tree does not show. */
    method Delete(node: Node)
      requires Valid() && node in nodes
      modifies this, nodes`left, nodes`right, nodes`parent, nodes`red, node`key, sentinel`parent, sentinel`red
      ensures Valid() && nodes == old(nodes) - {node} && born == old(born) - {node}
      ensures Inorder(shape) == Remove(old(Inorder(shape)), node)
      ensures node.left == null && node.right == null && node.parent == null && node.key == 0
    {
      hide At, Snap, Stable, Inorder, Elems, Plug, RedBlack;
      ghost var c, t := Locate(node);
      ghost var s := TakeOut(node, c, t);
      Forget(node, s);
    }

    /** nc_rbtree_min */
    method Min() returns (m: Node?)
      requires Valid()
      ensures m == null <==> Inorder(shape) == []
      ensures m != null ==> m in nodes && Inorder(shape)[0].x == m && Inorder(shape)[0].key == m.key
      ensures m != null ==>
                forall x <- nodes :: x == m || m.key < x.key || (m.key == x.key && born[m] < born[x])
    {
      Nearby(nodes, Top, shape, root);
      if root == sentinel {
        return null;
      }
      ghost var cr, mt;
      m, cr, mt := NodeMin(root, nodes, Top, shape);
      FirstIsLeast(m, cr, mt);
    }

    lemma AllNodes()
      requires Valid()
      ensures Size(shape) == |nodes|
    {
      Apartness(nodes, Top, shape, root);
      SizeIsElems(shape);
      hide At;
    }

    /** No walk down is long: one that has come through c to t has made at most 2 log2(n + 1)
        steps, for n nodes. */
    lemma WalkBound(c: Ctx<Node>, t: Tree<Node>)
      requires Valid() && Plug(c, t) == shape
      ensures Pow2((Depth(c) + 1) / 2) <= |nodes| + 1
      ensures Depth(c) + Height(t) <= Height(shape)
    {
      hide At, Plug, Balanced, Pow2, Height, Depth, Inorder, Stable, Elems, Apart;
      AllNodes();
      DepthBound(c, t);
      HeightBound(shape);
      PowOrder((Depth(c) + 1) / 2, (Height(shape) + 1) / 2);
    }

    lemma FirstIsLeast(m: Node, cr: Ctx<Node>, mt: Tree<Node>)
      requires Valid() && Here(nodes, Append(cr, Top), mt, m) && mt.Bin? && mt.l.Leaf?
      requires AllLeft(cr) && Plug(cr, mt) == shape
      ensures m in nodes && Inorder(shape) != [] && Inorder(shape)[0] == Entry(m, m.key)
      ensures forall x <- nodes :: x == m || m.key < x.key || (m.key == x.key && born[m] < born[x])
    {
      hide At, Plug, Append, Inorder, Elems, Balanced;
      Nearby(nodes, Append(cr, Top), mt, m);
      SmallestFirst(cr, mt);
      Apartness(nodes, Top, shape, root);
      InorderElems(shape);
      var s := Inorder(shape);
      forall x <- nodes ensures x == m || m.key < x.key || (m.key == x.key && born[m] < born[x]) {
        var i :| 0 <= i < |s| && s[i].x == x;
        KeyOf(i);
        if i > 0 { assert s[0].key < s[i].key || (s[0].key == s[i].key && born[s[0].x] < born[s[i].x]); }
      }
    }

    /** The listing shows the keys the nodes have. */
    lemma KeyOf(i: nat)
      requires Valid() && i < |Inorder(shape)|
      ensures Inorder(shape)[i].x in nodes && Inorder(shape)[i].key == Inorder(shape)[i].x.key
    {
      InorderKeys(Snap(nodes), shape, root, Above(Snap(nodes), Top, root), sentinel);
    }

    ghost method Forget(node: Node, s: Tree<Node>)
      requires Here(nodes - {node}, Top, s, root) && RedBlack(s) && !sentinel.red
      requires node in nodes && Stable(Inorder(shape), born) && born.Keys == nodes
               && forall x <- nodes :: born[x] < clock
      requires Inorder(s) == Remove(Inorder(shape), node)
      modifies this`shape, this`nodes, this`born, this`clock
      ensures Valid() && shape == s && nodes == old(nodes) - {node} && born == old(born) - {node}
    {
      hide At, Stable, Inorder, Elems;
      Apartness(nodes - {node}, Top, s, root);
      RemainderStable(Inorder(shape), born, node, s);
      Record(s, nodes - {node}, born - {node});
    }

    lemma DownLeft(S: set<Node>, c: Ctx<Node>, t: Tree<Node>)
      requires t.Bin? && Here(S, c, t, t.x)
      ensures Here(S, Up(L, t.x, t.key, t.red, t.r, c), t.l, if t.l.Bin? then t.l.x else sentinel)
    {
      Down(Snap(S), c, t, root, sentinel);
      Nearby(S, Up(L, t.x, t.key, t.red, t.r, c), t.l, Snap(S)[t.x].left);
    }

    lemma DownRight(S: set<Node>, c: Ctx<Node>, t: Tree<Node>)
      requires t.Bin? && Here(S, c, t, t.x)
      ensures Here(S, Up(R, t.x, t.key, t.red, t.l, c), t.r, if t.r.Bin? then t.r.x else sentinel)
    {
      Down(Snap(S), c, t, root, sentinel);
      Nearby(S, Up(R, t.x, t.key, t.red, t.l, c), t.r, Snap(S)[t.x].right);
    }
  }
}
