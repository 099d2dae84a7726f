/** The order-statistics red-black tree: a class over a node arena whose
    methods follow the source's insert, remove, fixups, rotations, transplant,
    minimum and k-th element search. */
module OrderStatistics {
  import opened Rationals
  import opened RbShapes
  import opened RbFixups
  import opened Arena

  class RedBlackTree {
    /** Node slots; a removed node's slot stays, unreachable. */
    var nodes: seq<Node>
    /** Slot of the root node, NIL when the tree is empty. */
    var root: int
    /** The abstract tree stored in nodes. */
    ghost var shape: Tree

    /** The stored tree is a binary search tree under the key order and a
        red-black tree. */
    ghost predicate Valid()
      reads this
    {
      Represents(shape, nodes, root) && Sorted(Keys(shape)) && RedBlack(shape)
    }

    /** The keys in in-order sequence. */
    ghost function Contents(): seq<Rational>
      reads this
    {
      Keys(shape)
    }

    /** The empty tree. */
    constructor ()
      ensures Valid() && Contents() == [] && nodes == []
    {
      nodes := [];
      root := NIL;
      shape := Leaf;
    }

    /** Sets the colour of slot n, the root of subtree t at p. */
    method SetColor(n: int, c: Color, ghost p: Path, ghost t: Tree)
      requires Represents(Plug(p, t), nodes, root) && t.Branch? && n == t.id
      modifies this
      ensures Represents(Plug(p, Paint(t, c)), nodes, root)
      ensures 0 <= n < |old(nodes)| && nodes == old(nodes)[n := old(nodes)[n].(color := c)]
      ensures root == old(root) && shape == old(shape)
    {
      Repaint(p, t, c, nodes, root);
      nodes := nodes[n := nodes[n].(color := c)];
    }

    /** Left rotation at slot x, the root of subtree t at p: x's right child
        y takes x's place and x becomes y's left child. */
    method RotateLeft(x: int, ghost p: Path, ghost t: Tree)
      requires Represents(Plug(p, t), nodes, root)
      requires t.Branch? && t.right.Branch? && x == t.id
      modifies this
      ensures Represents(Plug(p, RotL(t)), nodes, root)
      ensures ChangedOnly(old(nodes), nodes, {x, t.right.id, Id(t.right.left), Above(p, NIL)})
      ensures shape == old(shape)
    {
      RotateLeftSlots(p, t, nodes, root);
      ghost var A := nodes;
      var y := nodes[x].right;
      var yl := nodes[y].left;
      nodes := nodes[x := nodes[x].(right := yl)];
      if yl != NIL {
        nodes := nodes[yl := nodes[yl].(parent := x)];
      }
      var xp := nodes[x].parent;
      nodes := nodes[y := nodes[y].(parent := xp)];
      if xp == NIL {
        root := y;
      } else {
        if x == nodes[xp].left {
          nodes := nodes[xp := nodes[xp].(left := y)];
        } else {
          nodes := nodes[xp := nodes[xp].(right := y)];
        }
      }
      nodes := nodes[y := nodes[y].(left := x)];
      nodes := nodes[x := nodes[x].(parent := y)];

      RotateLeftStored(p, t, A, nodes, old(root), root);
    }

    /** Right rotation at slot x, the mirror image of RotateLeft. */
    method RotateRight(x: int, ghost p: Path, ghost t: Tree)
      requires Represents(Plug(p, t), nodes, root)
      requires t.Branch? && t.left.Branch? && x == t.id
      modifies this
      ensures Represents(Plug(p, RotR(t)), nodes, root)
      ensures ChangedOnly(old(nodes), nodes, {x, t.left.id, Id(t.left.right), Above(p, NIL)})
      ensures shape == old(shape)
    {
      RotateRightSlots(p, t, nodes, root);
      ghost var A := nodes;
      var y := nodes[x].left;
      var yr := nodes[y].right;
      nodes := nodes[x := nodes[x].(left := yr)];
      if yr != NIL {
        nodes := nodes[yr := nodes[yr].(parent := x)];
      }
      var xp := nodes[x].parent;
      nodes := nodes[y := nodes[y].(parent := xp)];
      if xp == NIL {
        root := y;
      } else {
        if x == nodes[xp].right {
          nodes := nodes[xp := nodes[xp].(right := y)];
        } else {
          nodes := nodes[xp := nodes[xp].(left := y)];
        }
      }
      nodes := nodes[y := nodes[y].(right := x)];
      nodes := nodes[x := nodes[x].(parent := y)];

      RotateRightStored(p, t, A, nodes, old(root), root);
    }

    /** Number of nodes in the subtree stored at slot n. The k-th element
        search uses it as the size of a left subtree. */
    method CountNodes(n: int, ghost t: Tree, ghost par: int) returns (count: nat)
      requires Linked(t, par, nodes) && n == Id(t)
      ensures count == Size(t) == |Keys(t)|
      decreases t
    {
      SizeIsLength(t);
      if n == NIL {
        count := 0;
      } else {
        var l := CountNodes(nodes[n].left, t.left, n);
        var r := CountNodes(nodes[n].right, t.right, n);
        count := l + 1 + r;
      }
    }

    /** The leftmost slot of the subtree t stored at x0. */
    method Minimum(x0: int, ghost t: Tree, ghost par: int) returns (x: int)
      requires Linked(t, par, nodes) && t.Branch? && x0 == t.id
      ensures x == MinNode(t).id
    {
      x := x0;
      ghost var u, upar := t, par;
      while nodes[x].left != NIL
        invariant Linked(u, upar, nodes) && u.Branch? && x == u.id
        invariant MinNode(u) == MinNode(t)
        decreases u
      {
        x := nodes[x].left;
        upar, u := u.id, u.left;
      }
    }

    /** The k0-th key in in-order sequence, counting from 1; 0/1 when k0 is
        out of range. */
    method FindKth(k0: int) returns (r: Rational)
      requires Valid()
      ensures 1 <= k0 <= |Contents()| ==> r == Contents()[k0 - 1]
      ensures !(1 <= k0 <= |Contents()|) ==> r == Rational(0, 1)
    {
      var k := k0;
      var x := root;
      ghost var t, par := shape, NIL;
      SizeIsLength(shape);
      while x != NIL
        invariant Linked(t, par, nodes) && x == Id(t) && Size(t) == |Keys(t)|
        invariant (1 <= k0 <= |Contents()|) <==> (1 <= k <= Size(t))
        invariant 1 <= k0 <= |Contents()| ==> Contents()[k0 - 1] == Keys(t)[k - 1]
        decreases t
      {
        SizeIsLength(t);
        SizeIsLength(t.left);
        SizeIsLength(t.right);
        var leftSize := CountNodes(nodes[x].left, t.left, x);
        if k == leftSize + 1 {
          return nodes[x].key;
        } else if k <= leftSize {
          x := nodes[x].left;
          par, t := t.id, t.left;
        } else {
          k := k - (leftSize + 1);
          x := nodes[x].right;
          par, t := t.id, t.right;
        }
      }
      r := Rational(0, 1);
    }

    /** Adds key: a descent to an empty slot, a new red leaf there, and the
        insert fixup. Equal keys go to the right. */
    method Insert(key: Rational)
      requires Valid()
      modifies this
      ensures Valid()
      ensures multiset(Contents()) == multiset(old(Contents())) + multiset{key}
      ensures |nodes| == |old(nodes)| + 1
    {
      ghost var p: Path := Top;
      ghost var t := shape;
      var y := NIL;
      var x := root;
      while x != NIL
        invariant nodes == old(nodes) && root == old(root) && shape == old(shape)
        invariant Represents(Plug(p, t), nodes, root) && Plug(p, t) == shape
        invariant x == Id(t) && y == Above(p, NIL)
        invariant Sorted(Keys(t))
        invariant forall e | e in Before(p) :: Le(e, key)
        invariant forall e | e in After(p) :: Less(key, e)
        invariant p != Top ==> (p.InLeft? <==> Less(key, p.key))
        decreases t
      {
        ViewNodes(p, t, nodes, root);
        SortedParts(Keys(t.left), t.key, Keys(t.right));
        y := x;
        if Less(key, nodes[x].key) {
          x := nodes[x].left;
          p, t := InLeft(t.color, t.key, t.id, t.right, p), t.left;
        } else {
          x := nodes[x].right;
          p, t := InRight(t.left, t.color, t.key, t.id, p), t.right;
        }
      }
      ghost var A := nodes;
      ViewFacts(p, t, nodes, root);
      assert t == Leaf;
      assert p != Top ==> A[p.id].key == p.key;
      var z := |nodes|;
      nodes := nodes + [Node(key, Red, NIL, NIL, y)];
      ghost var A' := nodes;
      if y == NIL {
        root := z;
      } else if Less(key, nodes[y].key) {
        nodes := nodes[y := nodes[y].(left := z)];
      } else {
        nodes := nodes[y := nodes[y].(right := z)];
      }
      ghost var s := Branch(Red, Leaf, key, z, Leaf);
      AttachStored(p, key, A, A', nodes, old(root), root);
      InsertStart(p, key, z);
      InsertPlace(p, key, z);
      ghost var K := Keys(Plug(p, s));
      FixInsertion(z, p, s);
      assert Keys(shape) == K;
    }

    /** The insert-fixup state: z is the slot of the red node s under work
        at p, and the stored tree is Plug(p, s). */
    ghost predicate Fixing(z: int, p: Path, s: Tree)
      reads this
    {
      Represents(Plug(p, s), nodes, root) && InsertInv(p, s) && z == Id(s) &&
      0 <= z < |nodes| && nodes[z].parent == Above(p, NIL) &&
      (p != Top ==> 0 <= p.id < |nodes| && nodes[p.id].color == p.color &&
                    nodes[p.id].parent == Above(p.up, NIL))
    }

    /** Restores the red-black invariants after a red leaf z0 was added at
        p0: recolouring while the uncle is red, otherwise one or two
        rotations; finally the root is painted black. */
    method FixInsertion(z0: int, ghost p0: Path, ghost s0: Tree)
      requires Represents(Plug(p0, s0), nodes, root) && InsertInv(p0, s0) && z0 == Id(s0)
      modifies this
      ensures Represents(shape, nodes, root) && RedBlack(shape)
      ensures Congruent(shape, Plug(p0, s0)) && |nodes| == |old(nodes)|
    {
      var z := z0;
      ghost var p, s := p0, s0;
      ViewNodes(p, s, nodes, root);
      while nodes[z].parent != NIL && nodes[nodes[z].parent].color == Red
        invariant Fixing(z, p, s)
        invariant Congruent(Plug(p, s), Plug(p0, s0)) && |nodes| == |old(nodes)|
        decreases Depth(p)
      {
        InsertParentRed(p, s);
        ghost var q := p.up;
        PlugLift(p, s);
        SiblingFacts(q, Lift(p, s), nodes, root);
        var zp := nodes[z].parent;
        var zpp := nodes[zp].parent;
        if zp == nodes[zpp].left {
          var y := nodes[zpp].right;
          if y != NIL && nodes[y].color == Red {
            z, p, s := RecolorUncle(zp, y, zpp, p, s);
          } else {
            SiblingFacts(p, s, nodes, root);
            if z == nodes[zp].right {
              z, p, s := RotateInnerLeft(z, p, s);
            }
            p := RotateOuterLeft(z, p, s);
          }
        } else {
          var y := nodes[zpp].left;
          if y != NIL && nodes[y].color == Red {
            z, p, s := RecolorUncle(zp, y, zpp, p, s);
          } else {
            SiblingFacts(p, s, nodes, root);
            if z == nodes[zp].left {
              z, p, s := RotateInnerRight(z, p, s);
            }
            p := RotateOuterRight(z, p, s);
          }
        }
      }
      PlugBranch(p, s);
      SetColor(root, Black, Top, Plug(p, s));
      InsertFinish(p, s);
      shape := Blacken(Plug(p, s));
    }

    /** Red uncle y: the parent zp and y turn black, the grandparent zpp
        red, and the work moves up to zpp. */
    method RecolorUncle(zp: int, y: int, zpp: int, ghost p: Path, ghost s: Tree)
      returns (z: int, ghost p': Path, ghost s': Tree)
      requires Fixing(Id(s), p, s) && p != Top && p.color == Red && p.up != Top
      requires IsRed(p.up.sib) && zp == p.id && zpp == p.up.id && y == Id(p.up.sib)
      modifies this
      ensures Fixing(z, p', s') && Depth(p') < Depth(p)
      ensures Congruent(Plug(p', s'), Plug(p, s)) && |nodes| == |old(nodes)|
    {
      ghost var q := p.up;
      PlugLift(p, s);
      SetColor(zp, Black, q, Lift(p, s));
      ghost var pb := Blacken(Lift(p, s));
      SibViewPlug(q, pb, q.sib);
      SetColor(y, Black, SibView(q, pb), q.sib);
      SibViewPlug(q, pb, Blacken(q.sib));
      ghost var g := Lift(Resib(q, Blacken(q.sib)), pb);
      SetColor(zpp, Red, q.up, g);
      InsertRecolor(p, s);
      z := zpp;
      p', s' := q.up, Paint(g, Red);
      ViewNodes(p', s', nodes, root);
      PlugLift(q, Lift(p, s));
      PlugCongruent(q.up, s', Lift(q, Lift(p, s)));
    }

    /** Black uncle, z the right child of a left parent: z moves up to the
        parent and a left rotation there makes it the outer child. */
    method RotateInnerLeft(z: int, ghost p: Path, ghost s: Tree)
      returns (z': int, ghost p': Path, ghost s': Tree)
      requires Fixing(z, p, s) && p.InRight? && p.color == Red
      requires p.up.InLeft? && !IsRed(p.up.sib)
      modifies this
      ensures Fixing(z', p', s') && p'.InLeft? && p'.color == Red && p'.up == p.up
      ensures Depth(p') == Depth(p)
      ensures Congruent(Plug(p', s'), Plug(p, s)) && |nodes| == |old(nodes)|
    {
      ghost var q := p.up;
      PlugLift(p, s);
      z' := nodes[z].parent;
      RotateLeft(z', q, Lift(p, s));
      InsertInnerLeft(p, s);
      ghost var r := RotL(Lift(p, s));
      p', s' := InLeft(r.color, r.key, r.id, r.right, q), r.left;
      PlugLift(p', s');
      ViewNodes(p', s', nodes, root);
      PlugCongruent(q, r, Lift(p, s));
    }

    /** Black uncle, z the left child of a right parent: the mirror image. */
    method RotateInnerRight(z: int, ghost p: Path, ghost s: Tree)
      returns (z': int, ghost p': Path, ghost s': Tree)
      requires Fixing(z, p, s) && p.InLeft? && p.color == Red
      requires p.up.InRight? && !IsRed(p.up.sib)
      modifies this
      ensures Fixing(z', p', s') && p'.InRight? && p'.color == Red && p'.up == p.up
      ensures Depth(p') == Depth(p)
      ensures Congruent(Plug(p', s'), Plug(p, s)) && |nodes| == |old(nodes)|
    {
      ghost var q := p.up;
      PlugLift(p, s);
      z' := nodes[z].parent;
      RotateRight(z', q, Lift(p, s));
      InsertInnerRight(p, s);
      ghost var r := RotR(Lift(p, s));
      p', s' := InRight(r.left, r.color, r.key, r.id, q), r.right;
      PlugLift(p', s');
      ViewNodes(p', s', nodes, root);
      PlugCongruent(q, r, Lift(p, s));
    }

    /** Black uncle, z the left child of a left parent: the parent turns
        black, the grandparent red, and a right rotation at the grandparent
        puts the parent above both. */
    method RotateOuterLeft(z: int, ghost p: Path, ghost s: Tree) returns (ghost p': Path)
      requires Fixing(z, p, s) && p.InLeft? && p.color == Red
      requires p.up.InLeft? && !IsRed(p.up.sib)
      modifies this
      ensures Fixing(z, p', s) && Depth(p') < Depth(p)
      ensures Congruent(Plug(p', s), Plug(p, s)) && |nodes| == |old(nodes)|
    {
      ghost var q := p.up;
      InsertParentRed(p, s);
      PlugLift(p, s);
      var zp := nodes[z].parent;
      SetColor(zp, Black, q, Lift(p, s));
      var zpp := nodes[zp].parent;
      PlugLift(q, Blacken(Lift(p, s)));
      SetColor(zpp, Red, q.up, Lift(q, Blacken(Lift(p, s))));
      RotateRight(zpp, q.up, Paint(Lift(q, Blacken(Lift(p, s))), Red));
      InsertOuterLeft(p, s);
      ghost var n := RotR(Paint(Lift(q, Blacken(Lift(p, s))), Red));
      p' := InLeft(n.color, n.key, n.id, n.right, q.up);
      PlugLift(p', s);
      ViewNodes(p', s, nodes, root);
      PlugLift(q, Lift(p, s));
      PlugCongruent(q.up, n, Lift(q, Lift(p, s)));
    }

    /** Black uncle, z the right child of a right parent: the mirror image. */
    method RotateOuterRight(z: int, ghost p: Path, ghost s: Tree) returns (ghost p': Path)
      requires Fixing(z, p, s) && p.InRight? && p.color == Red
      requires p.up.InRight? && !IsRed(p.up.sib)
      modifies this
      ensures Fixing(z, p', s) && Depth(p') < Depth(p)
      ensures Congruent(Plug(p', s), Plug(p, s)) && |nodes| == |old(nodes)|
    {
      ghost var q := p.up;
      InsertParentRed(p, s);
      PlugLift(p, s);
      var zp := nodes[z].parent;
      SetColor(zp, Black, q, Lift(p, s));
      var zpp := nodes[zp].parent;
      PlugLift(q, Blacken(Lift(p, s)));
      SetColor(zpp, Red, q.up, Lift(q, Blacken(Lift(p, s))));
      RotateLeft(zpp, q.up, Paint(Lift(q, Blacken(Lift(p, s))), Red));
      InsertOuterRight(p, s);
      ghost var n := RotL(Paint(Lift(q, Blacken(Lift(p, s))), Red));
      p' := InRight(n.left, n.color, n.key, n.id, q.up);
      PlugLift(p', s);
      ViewNodes(p', s, nodes, root);
      PlugLift(q, Lift(p, s));
      PlugCongruent(q.up, n, Lift(q, Lift(p, s)));
    }

    /** Puts the subtree V stored at slot v where slot u hangs below the
        frames of p: u's parent (or root) links to v and v links up to it. */
    method Transplant(u: int, v: int, ghost p: Path, ghost V: Tree, ghost vpar: int)
      requires LinkedPath(p, u, NIL, nodes) && PathDistinct(p) && 0 <= u < |nodes| && u !in PathIds(p)
      requires nodes[u].parent == Above(p, NIL) && root == RootOf(p, u)
      requires Linked(V, vpar, nodes) && Distinct(V) && Ids(V) !! PathIds(p) && v == Id(V)
      modifies this
      ensures LinkedPath(p, v, NIL, nodes) && Linked(V, Above(p, NIL), nodes) && root == RootOf(p, v)
      ensures ChangedOnly(old(nodes), nodes, {Above(p, NIL), v})
      ensures p != Top ==> 0 <= p.id < |nodes|
      ensures p != Top ==> nodes[p.id] == (if p.InLeft? then old(nodes)[p.id].(left := v) else old(nodes)[p.id].(right := v))
      ensures v != NIL ==> 0 <= v < |nodes| && nodes[v] == old(nodes)[v].(parent := Above(p, NIL))
      ensures shape == old(shape)
    {
      ghost var A := nodes;
      LinkedPathInRange(p, u, NIL, nodes);
      LinkedInRange(V, vpar, nodes);
      var up := nodes[u].parent;
      if up == NIL {
        root := v;
      } else {
        PathSide(p, u, NIL, nodes);
        if u == nodes[up].left {
          nodes := nodes[up := nodes[up].(left := v)];
        } else {
          nodes := nodes[up := nodes[up].(right := v)];
        }
      }
      if v != NIL {
        nodes := nodes[v := nodes[v].(parent := up)];
      }
      TransplantStored(p, u, V, vpar, A, nodes, old(root), root);
    }

    /** Removes one occurrence of key: a descent by the key order to a node
        holding key, which is then deleted. A key that is not in the tree
        leaves the tree as it was. */
    method Remove(key: Rational)
      requires Valid()
      modifies this
      ensures Valid() && |nodes| == |old(nodes)|
      ensures key !in old(Contents()) ==> nodes == old(nodes) && root == old(root) && shape == old(shape)
      ensures key in old(Contents()) ==> multiset(Contents()) == multiset(old(Contents())) - multiset{key}
    {
      var z := root;
      ghost var p, t := Top, shape;
      while z != NIL
        invariant shape == Plug(p, t) && Represents(shape, nodes, root) && z == Id(t)
        invariant Sorted(Keys(t)) && (key in Contents() <==> key in Keys(t))
        invariant nodes == old(nodes) && root == old(root) && shape == old(shape)
        decreases t
      {
        ViewNodes(p, t, nodes, root);
        if Less(key, nodes[z].key) {
          SearchLeft(t, key);
          z := nodes[z].left;
          p, t := InLeft(t.color, t.key, t.id, t.right, p), t.left;
        } else if Less(nodes[z].key, key) {
          SearchRight(t, key);
          z := nodes[z].right;
          p, t := InRight(t.left, t.color, t.key, t.id, p), t.right;
        } else {
          LessIsStrictTotalOrder(key, t.key, key);
          DeleteAt(p, t);
          DeleteNode(z, p, t);
          return;
        }
      }
      ViewSlots(p, t, nodes, root);
    }

    /** Removes the node z, the root of subtree Z at p: a node with at most
        one child is replaced by that child; otherwise its successor y (the
        leftmost node of its right subtree) is spliced out and takes z's
        place and colour. When the node taken out of the tree was black,
        its place x carries a black deficiency, which the delete fixup
        repairs. */
    method DeleteNode(z: int, ghost p: Path, ghost Z: Tree)
      requires Valid() && shape == Plug(p, Z) && Z.Branch? && z == Z.id
      modifies this
      ensures Valid()
      ensures Contents() == Before(p) + Keys(Z.left) + Keys(Z.right) + After(p)
      ensures |nodes| == |old(nodes)|
    {
      ViewNodes(p, Z, nodes, root);
      var y := z;
      var yOriginalColor := nodes[y].color;
      var x: int;
      var xParent: int;
      ghost var q: Path;
      ghost var X: Tree;
      if nodes[z].left == NIL {
        x := nodes[z].right;
        xParent := nodes[z].parent;
        ReplaceByChild(z, x, p, Z, Z.right);
        q, X := p, Z.right;
      } else if nodes[z].right == NIL {
        x := nodes[z].left;
        xParent := nodes[z].parent;
        ReplaceByChild(z, x, p, Z, Z.left);
        q, X := p, Z.left;
      } else {
        y, yOriginalColor, x, xParent, q, X := SpliceSuccessor(z, p, Z);
      }
      if yOriginalColor == Black {
        FixDeletion(x, xParent, q, X);
      } else {
        shape := Plug(q, X);
      }
      KeysPlug(p, Z);
      DeleteKey(Before(p), Keys(Z.left), Z.key, Keys(Z.right), After(p));
    }

    /** The state after a node was taken out: the stored tree is Plug(q, X)
        with x the slot of X and xParent the slot above it; it carries a
        black deficiency at x when the node taken out was black and is
        red-black otherwise. */
    ghost predicate Spliced(x: int, xParent: int, q: Path, X: Tree, black: bool)
      reads this
    {
      Represents(Plug(q, X), nodes, root) && x == Id(X) && xParent == Above(q, NIL) &&
      (black ==> DelInv(q, X)) && (!black ==> RedBlack(Plug(q, X)))
    }

    /** The one-child cases of DeleteNode: z's only child C (or nothing)
        takes z's place. */
    method ReplaceByChild(z: int, x: int, ghost p: Path, ghost Z: Tree, ghost C: Tree)
      requires Valid() && shape == Plug(p, Z) && Z.Branch? && z == Z.id
      requires (Z.left.Leaf? && C == Z.right) || (Z.right.Leaf? && C == Z.left)
      requires x == Id(C)
      modifies this
      ensures Spliced(x, Above(p, NIL), p, C, Z.color == Black)
      ensures Keys(Plug(p, C)) == Before(p) + Keys(Z.left) + Keys(Z.right) + After(p)
      ensures |nodes| == |old(nodes)| && shape == old(shape)
    {
      ViewFacts(p, Z, nodes, root);
      ViewNodes(p, Z, nodes, root);
      Transplant(z, x, p, C, z);
      ChildSplice(p, Z, C);
      SameColorsRefl(p);
      SpliceOut(p, Z, C, p);
      RepresentsSplit(p, C, nodes, root);
    }

    /** The two-children case of DeleteNode: finds the successor y and moves
        it into z's place. Returns y, y's colour before the move, the slot x
        that takes y's old place, x's parent and the view (q, X) of x. */
    method SpliceSuccessor(z: int, ghost p: Path, ghost Z: Tree)
      returns (y: int, yOriginalColor: Color, x: int, xParent: int, ghost q: Path, ghost X: Tree)
      requires Valid() && shape == Plug(p, Z) && Z.Branch? && z == Z.id
      requires Z.left.Branch? && Z.right.Branch?
      modifies this
      ensures Spliced(x, xParent, q, X, yOriginalColor == Black)
      ensures Keys(Plug(q, X)) == Before(p) + Keys(Z.left) + Keys(Z.right) + After(p)
      ensures |nodes| == |old(nodes)| && shape == old(shape)
    {
      ViewFacts(p, Z, nodes, root);
      ViewNodes(p, Z, nodes, root);
      ghost var R := Z.right;
      y := Minimum(nodes[z].right, R, z);
      SuccessorSlots(p, Z, nodes, root);
      ghost var m := MinPath(R, Top);
      ghost var Y := MinNode(R);
      ghost var o := InRight(Z.left, Z.color, Z.key, z, p);
      yOriginalColor := nodes[y].color;
      x := nodes[y].right;
      if nodes[y].parent == z {
        ghost var A := nodes;
        if x != NIL {
          nodes := nodes[x := nodes[x].(parent := y)];
        }
        assert nodes == A;
        xParent := y;
        ReplaceableDirect(p, Z, nodes, root);
        ReplaceWithSuccessor(z, y, p, Z.left, Z.color, R, z);
      } else {
        xParent := nodes[y].parent;
        DetachSuccessor(z, y, p, Z);
        ReplaceWithSuccessor(z, y, p, Z.left, Z.color, Branch(Y.color, Leaf, Y.key, y, Plug(m, Y.right)), m.id);
      }
      q, X := Concat(m, InRight(Z.left, Z.color, Y.key, y, p)), Y.right;
      SuccessorSplice(p, Z);
      SpliceOut(Concat(m, o), Y, X, q);
    }

    /** The successor y of z lies deeper than z's right child: y's right
        child takes y's place, and y takes over z's right subtree. */
    method DetachSuccessor(z: int, y: int, ghost p: Path, ghost Z: Tree)
      requires Represents(Plug(p, Z), nodes, root) && Z.Branch? && z == Z.id && Z.left.Branch?
      requires Z.right.Branch? && Z.right.left.Branch? && y == MinNode(Z.right).id
      modifies this
      ensures
        var m := MinPath(Z.right, Top);
        var Y := MinNode(Z.right);
        !m.Top? &&
        Replaceable(p, z, Z.left, Z.color, Branch(Y.color, Leaf, Y.key, y, Plug(m, Y.right)), m.id, nodes, root)
      ensures |nodes| == |old(nodes)| && shape == old(shape)
    {
      ghost var R := Z.right;
      ghost var m := MinPath(R, Top);
      ghost var Y := MinNode(R);
      ghost var X := Y.right;
      ghost var o := InRight(Z.left, Z.color, Z.key, z, p);
      ghost var py := Concat(m, o);
      SuccessorSlots(p, Z, nodes, root);
      MinSplit(R);
      SuccessorDistinct(p, Z);
      ViewFacts(py, Y, nodes, root);
      ghost var A0, root0 := nodes, root;
      Transplant(y, nodes[y].right, py, X, y);
      CutStored(p, Z, A0, nodes, root0, root);
      ghost var A := nodes;
      nodes := nodes[y := nodes[y].(right := nodes[z].right)];
      nodes := nodes[nodes[y].right := nodes[nodes[y].right].(parent := y)];
      DetachStored(p, Z, A, nodes, root);
    }

    /** z, below the frames of p with left subtree L and colour c, is
        replaced by its successor y, the root of the stored tree V: z's
        parent (or the root) links to y, and y takes L and the colour c. */
    method ReplaceWithSuccessor(z: int, y: int, ghost p: Path, ghost L: Tree, ghost c: Color, ghost V: Tree, ghost vpar: int)
      requires Replaceable(p, z, L, c, V, vpar, nodes, root) && y == V.id
      modifies this
      ensures Represents(Plug(p, Branch(c, L, V.key, y, V.right)), nodes, root)
      ensures |nodes| == |old(nodes)| && shape == old(shape)
    {
      RepresentsSplit(p, Branch(c, L, V.key, z, V), nodes, root);
      ghost var A := nodes;
      LinkedInRange(L, z, nodes);
      LinkedInRange(V, vpar, nodes);
      Transplant(z, y, p, V, vpar);
      LinkedFrame(L, z, A, nodes, {Above(p, NIL), y});
      ghost var A1 := nodes;
      nodes := nodes[y := nodes[y].(left := nodes[z].left)];
      nodes := nodes[nodes[y].left := nodes[nodes[y].left].(parent := y)];
      nodes := nodes[y := nodes[y].(color := nodes[z].color)];
      ghost var S := {y, L.id};
      LinkedReparent(L, z, y, A1, nodes, S);
      LinkedFrame(V.right, y, A1, nodes, S);
      LinkedPathFrame(p, y, NIL, A1, nodes, S);
      ghost var W := Branch(c, L, V.key, y, V.right);
      assert Linked(W, Above(p, NIL), nodes);
      RepresentsSplit(p, W, nodes, root);
    }

    /** The delete-fixup state: x (possibly NIL) is the slot of the deficient
        subtree s at p, xParent the slot above it, and the stored tree is
        Plug(p, s). */
    ghost predicate Deficient(x: int, xParent: int, p: Path, s: Tree)
      reads this
    {
      Represents(Plug(p, s), nodes, root) && DelInv(p, s) && x == Id(s) && xParent == Above(p, NIL)
    }

    /** Restores the red-black invariants after a black node was removed
        above x0: while x is a black non-root node, the cases on its sibling
        w either move the deficiency up or remove it by rotation; finally x
        is painted black. The parent of x is tracked in xParent, since x
        may be absent. */
    method FixDeletion(x0: int, xParent0: int, ghost p0: Path, ghost s0: Tree)
      requires Deficient(x0, xParent0, p0, s0)
      modifies this
      ensures Represents(shape, nodes, root) && RedBlack(shape)
      ensures Congruent(shape, Plug(p0, s0)) && |nodes| == |old(nodes)|
    {
      var x, xParent := x0, xParent0;
      ghost var p, s := p0, s0;
      ViewSlots(p, s, nodes, root);
      while x != root && (x == NIL || nodes[x].color == Black)
        invariant Deficient(x, xParent, p, s) && (x == root <==> p.Top?)
        invariant s.Branch? ==> 0 <= x < |nodes| && nodes[x].color == s.color
        invariant Congruent(Plug(p, s), Plug(p0, s0)) && |nodes| == |old(nodes)|
        decreases DelMeasure(p, s)
      {
        ViewSlots(p, s, nodes, root);
        DelSibling(p, s);
        SiblingFacts(p, s, nodes, root);
        if x == nodes[xParent].left {
          x, xParent, p, s := FixLeftChild(x, xParent, p, s);
        } else {
          x, xParent, p, s := FixRightChild(x, xParent, p, s);
        }
        ViewSlots(p, s, nodes, root);
      }
      if x != NIL {
        SetColor(x, Black, p, s);
      }
      DelFinish(p, s);
      shape := Plug(p, Blacken(s));
    }

    /** One round of the delete fixup for x a left child. */
    method FixLeftChild(x: int, xParent: int, ghost p: Path, ghost s: Tree)
      returns (x': int, xParent': int, ghost p': Path, ghost s': Tree)
      requires Deficient(x, xParent, p, s) && p.InLeft? && !IsRed(s)
      modifies this
      ensures Deficient(x', xParent', p', s') && DelMeasure(p', s') < DelMeasure(p, s)
      ensures Congruent(Plug(p', s'), Plug(p, s)) && |nodes| == |old(nodes)|
    {
      DelSibling(p, s);
      SiblingFacts(p, s, nodes, root);
      NephewFacts(p, s, nodes, root);
      var w := nodes[xParent].right;
      ghost var q := p;
      if nodes[w].color == Red {
        q := DeleteRedSiblingLeft(x, xParent, w, p, s);
        SiblingFacts(q, s, nodes, root);
        NephewFacts(q, s, nodes, root);
        w := nodes[xParent].right;
      }
      if (nodes[w].left == NIL || nodes[nodes[w].left].color == Black) &&
         (nodes[w].right == NIL || nodes[nodes[w].right].color == Black)
      {
        x', xParent', p', s' := DeletePushUp(w, x, xParent, q, s);
      } else {
        if nodes[w].right == NIL || nodes[nodes[w].right].color == Black {
          q := DeleteNearNephewLeft(w, x, xParent, q, s);
          SiblingFacts(q, s, nodes, root);
          NephewFacts(q, s, nodes, root);
          w := nodes[xParent].right;
        }
        x', xParent', p', s' := DeleteFarNephewLeft(w, x, xParent, q, s);
      }
    }

    /** One round of the delete fixup for x a right child: the mirror image. */
    method FixRightChild(x: int, xParent: int, ghost p: Path, ghost s: Tree)
      returns (x': int, xParent': int, ghost p': Path, ghost s': Tree)
      requires Deficient(x, xParent, p, s) && p.InRight? && !IsRed(s)
      modifies this
      ensures Deficient(x', xParent', p', s') && DelMeasure(p', s') < DelMeasure(p, s)
      ensures Congruent(Plug(p', s'), Plug(p, s)) && |nodes| == |old(nodes)|
    {
      DelSibling(p, s);
      SiblingFacts(p, s, nodes, root);
      NephewFacts(p, s, nodes, root);
      var w := nodes[xParent].left;
      ghost var q := p;
      if nodes[w].color == Red {
        q := DeleteRedSiblingRight(x, xParent, w, p, s);
        SiblingFacts(q, s, nodes, root);
        NephewFacts(q, s, nodes, root);
        w := nodes[xParent].left;
      }
      if (nodes[w].right == NIL || nodes[nodes[w].right].color == Black) &&
         (nodes[w].left == NIL || nodes[nodes[w].left].color == Black)
      {
        x', xParent', p', s' := DeletePushUp(w, x, xParent, q, s);
      } else {
        if nodes[w].left == NIL || nodes[nodes[w].left].color == Black {
          q := DeleteNearNephewRight(w, x, xParent, q, s);
          SiblingFacts(q, s, nodes, root);
          NephewFacts(q, s, nodes, root);
          w := nodes[xParent].left;
        }
        x', xParent', p', s' := DeleteFarNephewRight(w, x, xParent, q, s);
      }
    }

    /** Red sibling w of a left child x: w turns black, the parent red, and
        a left rotation at the parent gives x a black sibling. */
    method DeleteRedSiblingLeft(x: int, xParent: int, w: int, ghost p: Path, ghost s: Tree)
      returns (ghost p': Path)
      requires Deficient(x, xParent, p, s) && p.InLeft? && !IsRed(s) && IsRed(p.sib) && w == p.sib.id
      modifies this
      ensures Deficient(x, xParent, p', s) && p'.InLeft? && p'.color == Red
      ensures p'.sib.Branch? && !IsRed(p'.sib) && Depth(p') == Depth(p) + 1
      ensures Congruent(Plug(p', s), Plug(p, s)) && |nodes| == |old(nodes)|
    {
      SibViewPlug(p, s, p.sib);
      SetColor(w, Black, SibView(p, s), p.sib);
      SibViewPlug(p, s, Blacken(p.sib));
      ghost var m := Lift(Resib(p, Blacken(p.sib)), s);
      SetColor(xParent, Red, p.up, m);
      RotateLeft(xParent, p.up, Paint(m, Red));
      DelRedSiblingLeft(p, s);
      ghost var n := RotL(Branch(Red, s, p.key, p.id, Blacken(p.sib)));
      p' := InLeft(n.left.color, n.left.key, n.left.id, n.left.right,
                   InLeft(n.color, n.key, n.id, n.right, p.up));
      assert Plug(p', s) == Plug(p.up, n);
      PlugLift(p, s);
      PlugCongruent(p.up, n, Lift(p, s));
    }

    /** Red sibling w of a right child x: the mirror image. */
    method DeleteRedSiblingRight(x: int, xParent: int, w: int, ghost p: Path, ghost s: Tree)
      returns (ghost p': Path)
      requires Deficient(x, xParent, p, s) && p.InRight? && !IsRed(s) && IsRed(p.sib) && w == p.sib.id
      modifies this
      ensures Deficient(x, xParent, p', s) && p'.InRight? && p'.color == Red
      ensures p'.sib.Branch? && !IsRed(p'.sib) && Depth(p') == Depth(p) + 1
      ensures Congruent(Plug(p', s), Plug(p, s)) && |nodes| == |old(nodes)|
    {
      SibViewPlug(p, s, p.sib);
      SetColor(w, Black, SibView(p, s), p.sib);
      SibViewPlug(p, s, Blacken(p.sib));
      ghost var m := Lift(Resib(p, Blacken(p.sib)), s);
      SetColor(xParent, Red, p.up, m);
      RotateRight(xParent, p.up, Paint(m, Red));
      DelRedSiblingRight(p, s);
      ghost var n := RotR(Branch(Red, Blacken(p.sib), p.key, p.id, s));
      p' := InRight(n.right.left, n.right.color, n.right.key, n.right.id,
                    InRight(n.left, n.color, n.key, n.id, p.up));
      assert Plug(p', s) == Plug(p.up, n);
      PlugLift(p, s);
      PlugCongruent(p.up, n, Lift(p, s));
    }

    /** Black sibling w with two black children: w turns red and the
        deficiency moves up to the parent. */
    method DeletePushUp(w: int, x: int, xParent: int, ghost p: Path, ghost s: Tree)
      returns (x': int, xParent': int, ghost p': Path, ghost s': Tree)
      requires Deficient(x, xParent, p, s) && p != Top && !IsRed(s)
      requires p.sib.Branch? && !IsRed(p.sib) && !IsRed(p.sib.left) && !IsRed(p.sib.right) && w == p.sib.id
      modifies this
      ensures Deficient(x', xParent', p', s') && Depth(p') + 1 == Depth(p) && IsRed(s') == (p.color == Red)
      ensures Congruent(Plug(p', s'), Plug(p, s)) && |nodes| == |old(nodes)|
    {
      SibViewPlug(p, s, p.sib);
      SetColor(w, Red, SibView(p, s), p.sib);
      SibViewPlug(p, s, Paint(p.sib, Red));
      DelPushUp(p, s);
      x' := xParent;
      p', s' := p.up, Lift(Resib(p, Paint(p.sib, Red)), s);
      ViewNodes(p', s', nodes, root);
      xParent' := nodes[x'].parent;
      PlugLift(p, s);
      PlugCongruent(p.up, s', Lift(p, s));
    }

    /** Black sibling w of a left child, w's right child black and left
        child red: the near nephew turns black, w red, and a right rotation
        at w makes w's right child red. */
    method DeleteNearNephewLeft(w: int, x: int, xParent: int, ghost p: Path, ghost s: Tree)
      returns (ghost p': Path)
      requires Deficient(x, xParent, p, s) && p.InLeft? && !IsRed(s)
      requires p.sib.Branch? && !IsRed(p.sib) && !IsRed(p.sib.right) && IsRed(p.sib.left) && w == p.sib.id
      modifies this
      ensures Deficient(x, xParent, p', s) && p'.InLeft? && Depth(p') == Depth(p)
      ensures p'.sib.Branch? && !IsRed(p'.sib) && IsRed(p'.sib.right)
      ensures Congruent(Plug(p', s), Plug(p, s)) && |nodes| == |old(nodes)|
    {
      ghost var v := SibView(p, s);
      ghost var sib := p.sib;
      SibViewPlug(p, s, sib);
      NephewFacts(p, s, nodes, root);
      var wl := nodes[w].left;
      if wl != NIL {
        SetColor(wl, Black, InLeft(sib.color, sib.key, sib.id, sib.right, v), sib.left);
      }
      ghost var w1 := sib.(left := Blacken(sib.left));
      assert Plug(InLeft(sib.color, sib.key, sib.id, sib.right, v), Blacken(sib.left)) == Plug(v, w1);
      SetColor(w, Red, v, w1);
      RotateRight(w, v, Paint(w1, Red));
      DelNearNephewLeft(p, s);
      ghost var w' := RotR(Paint(w1, Red));
      p' := InLeft(p.color, p.key, p.id, w', p.up);
      SibViewPlug(p, s, w');
      PlugCongruent(v, w', sib);
    }

    /** Black sibling w of a right child, w's left child black and right
        child red: the mirror image. */
    method DeleteNearNephewRight(w: int, x: int, xParent: int, ghost p: Path, ghost s: Tree)
      returns (ghost p': Path)
      requires Deficient(x, xParent, p, s) && p.InRight? && !IsRed(s)
      requires p.sib.Branch? && !IsRed(p.sib) && !IsRed(p.sib.left) && IsRed(p.sib.right) && w == p.sib.id
      modifies this
      ensures Deficient(x, xParent, p', s) && p'.InRight? && Depth(p') == Depth(p)
      ensures p'.sib.Branch? && !IsRed(p'.sib) && IsRed(p'.sib.left)
      ensures Congruent(Plug(p', s), Plug(p, s)) && |nodes| == |old(nodes)|
    {
      ghost var v := SibView(p, s);
      ghost var sib := p.sib;
      SibViewPlug(p, s, sib);
      NephewFacts(p, s, nodes, root);
      var wr := nodes[w].right;
      if wr != NIL {
        SetColor(wr, Black, InRight(sib.left, sib.color, sib.key, sib.id, v), sib.right);
      }
      ghost var w1 := sib.(right := Blacken(sib.right));
      assert Plug(InRight(sib.left, sib.color, sib.key, sib.id, v), Blacken(sib.right)) == Plug(v, w1);
      SetColor(w, Red, v, w1);
      RotateLeft(w, v, Paint(w1, Red));
      DelNearNephewRight(p, s);
      ghost var w' := RotL(Paint(w1, Red));
      p' := InRight(w', p.color, p.key, p.id, p.up);
      SibViewPlug(p, s, w');
      PlugCongruent(v, w', sib);
    }

    /** Black sibling w of a left child with a red right child: w takes the
        parent's colour, the parent and the far nephew turn black, and a
        left rotation at the parent removes the deficiency; x becomes the
        root. */
    method DeleteFarNephewLeft(w: int, x: int, xParent: int, ghost p: Path, ghost s: Tree)
      returns (x': int, xParent': int, ghost p': Path, ghost s': Tree)
      requires Deficient(x, xParent, p, s) && p.InLeft? && !IsRed(s)
      requires p.sib.Branch? && !IsRed(p.sib) && IsRed(p.sib.right) && w == p.sib.id
      modifies this
      ensures Deficient(x', xParent', p', s') && p' == Top
      ensures Congruent(Plug(p', s'), Plug(p, s)) && |nodes| == |old(nodes)|
    {
      ghost var sib := p.sib;
      ViewSlots(p, s, nodes, root);
      NephewFacts(p, s, nodes, root);
      SibViewPlug(p, s, sib);
      SetColor(w, nodes[xParent].color, SibView(p, s), sib);
      ghost var w1 := Paint(sib, p.color);
      SibViewPlug(p, s, w1);
      SetColor(xParent, Black, p.up, Branch(p.color, s, p.key, p.id, w1));
      ghost var mm := Branch(Black, s, p.key, p.id, Branch(p.color, sib.left, sib.key, sib.id, Blacken(sib.right)));
      ghost var pr := InRight(w1.left, w1.color, w1.key, w1.id, InRight(s, Black, p.key, p.id, p.up));
      assert Plug(pr, sib.right) == Plug(p.up, Branch(Black, s, p.key, p.id, w1));
      assert Plug(pr, Blacken(sib.right)) == Plug(p.up, mm);
      var wr := nodes[w].right;
      assert wr == sib.right.id;
      if wr != NIL {
        SetColor(wr, Black, pr, sib.right);
      }
      RotateLeft(xParent, p.up, mm);
      DelFarNephewLeft(p, s);
      x', xParent' := root, NIL;
      p', s' := Top, Plug(p.up, RotL(mm));
      PlugLift(p, s);
      PlugCongruent(p.up, RotL(mm), Lift(p, s));
    }

    /** Black sibling w of a right child with a red left child: the mirror
        image. */
    method DeleteFarNephewRight(w: int, x: int, xParent: int, ghost p: Path, ghost s: Tree)
      returns (x': int, xParent': int, ghost p': Path, ghost s': Tree)
      requires Deficient(x, xParent, p, s) && p.InRight? && !IsRed(s)
      requires p.sib.Branch? && !IsRed(p.sib) && IsRed(p.sib.left) && w == p.sib.id
      modifies this
      ensures Deficient(x', xParent', p', s') && p' == Top
      ensures Congruent(Plug(p', s'), Plug(p, s)) && |nodes| == |old(nodes)|
    {
      ghost var sib := p.sib;
      ViewSlots(p, s, nodes, root);
      NephewFacts(p, s, nodes, root);
      SibViewPlug(p, s, sib);
      SetColor(w, nodes[xParent].color, SibView(p, s), sib);
      ghost var w1 := Paint(sib, p.color);
      SibViewPlug(p, s, w1);
      SetColor(xParent, Black, p.up, Branch(p.color, w1, p.key, p.id, s));
      ghost var mm := Branch(Black, Branch(p.color, Blacken(sib.left), sib.key, sib.id, sib.right), p.key, p.id, s);
      ghost var pl := InLeft(w1.color, w1.key, w1.id, w1.right, InLeft(Black, p.key, p.id, s, p.up));
      assert Plug(pl, sib.left) == Plug(p.up, Branch(Black, w1, p.key, p.id, s));
      assert Plug(pl, Blacken(sib.left)) == Plug(p.up, mm);
      var wl := nodes[w].left;
      assert wl == sib.left.id;
      if wl != NIL {
        SetColor(wl, Black, pl, sib.left);
      }
      RotateRight(xParent, p.up, mm);
      DelFarNephewRight(p, s);
      x', xParent' := root, NIL;
      p', s' := Top, Plug(p.up, RotR(mm));
      PlugLift(p, s);
      PlugCongruent(p.up, RotR(mm), Lift(p, s));
    }
  }
}
