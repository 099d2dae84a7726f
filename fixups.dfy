/** The case analysis of insert-fixup and delete-fixup on abstract shapes.
    Each lemma takes the tree as a zipper (p, s) at the node under work,
    assumes the loop invariant of its fixup, and shows that one case of the
    loop body re-establishes it (or, for the terminal cases, the red-black
    invariants of the whole tree). */
module RbFixups {
  import opened Rationals
  import opened RbShapes

  // ---------------------------------------------------------------------------
  // Insert-fixup

  /** The insert-fixup invariant at node z: z is red, its subtree is a
      red-black tree apart from the root colour, and the only possible red-red
      edge is between z and its parent. */
  ghost predicate InsertInv(p: Path, s: Tree) {
    IsRed(s) && RedFree(s) && Balanced(s) &&
    PathBalanced(p, BH(s)) && PathRedFree(p, false) && PathRootBlack(p)
  }

  /** A new red leaf in a red-black tree satisfies the insert-fixup invariant. */
  lemma InsertStart(p: Path, k: Rational, n: int)
    requires RedBlack(Plug(p, Leaf))
    ensures InsertInv(p, Branch(Red, Leaf, k, n, Leaf))
  {
    BalancedPlug(p, Leaf);
    RedFreePlug(p, Leaf);
    if p != Top {
      RootColorPlug(p, Leaf);
    }
  }

  /** A red parent is not the root, so the grandparent exists, and it is black. */
  lemma InsertParentRed(p: Path, s: Tree)
    requires InsertInv(p, s) && p != Top && p.color == Red
    ensures p.up != Top && p.up.color == Black
  {
    assert PathRedFree(p.up, true);
  }

  /** Red uncle: parent and uncle turn black, the grandparent red, and the
      work moves to the grandparent. */
  lemma InsertRecolor(p: Path, s: Tree)
    requires InsertInv(p, s) && p != Top && p.color == Red
    requires p.up != Top && IsRed(p.up.sib)
    ensures
      var q := p.up;
      var g := Paint(Lift(Resib(q, Blacken(q.sib)), Blacken(Lift(p, s))), Red);
      InsertInv(q.up, g) && Congruent(g, Lift(q, Lift(p, s))) && Depth(q.up) + 2 == Depth(p)
  {
    InsertParentRed(p, s);
    var q := p.up;
    var pp := Blacken(Lift(p, s));
    var u := Blacken(q.sib);
    var g := Paint(Lift(Resib(q, u), pp), Red);
    assert PathBalanced(q, BH(s));
    assert PathRedFree(q, true);
    assert PathRootBlack(q);
    assert PathRootBlack(q.up);
    assert Balanced(pp) && BH(pp) == BH(s) + 1 && RedFree(pp) && !IsRed(pp);
    assert Balanced(u) && BH(u) == BH(s) + 1 && RedFree(u) && !IsRed(u);
    assert Balanced(g) && RedFree(g) && BH(g) == BH(s) + 1;
    assert Keys(g) == Keys(Lift(q, Lift(p, s)));
    assert Ids(g) == Ids(Lift(q, Lift(p, s)));
  }

  /** Black uncle, z the right child of a left parent: rotating left at the
      parent makes the old parent the left (outer) child of z. */
  lemma InsertInnerLeft(p: Path, s: Tree)
    requires InsertInv(p, s) && p.InRight? && p.color == Red
    requires p.up.InLeft? && !IsRed(p.up.sib)
    ensures
      var r := RotL(Lift(p, s));
      var p1 := InLeft(r.color, r.key, r.id, r.right, p.up);
      InsertInv(p1, r.left) && p1.color == Red && Depth(p1) == Depth(p) &&
      Congruent(r, Lift(p, s))
  {
    var q := p.up;
    assert PathBalanced(q, BH(s)) && PathRedFree(q, true) && PathRootBlack(q);
    assert BH(s.left) == BH(s) == BH(s.right) && !IsRed(s.left) && !IsRed(s.right);
    var r := RotL(Lift(p, s));
    assert Balanced(r.left) && BH(r.left) == BH(s) && RedFree(r.left);
    assert PathBalanced(InLeft(r.color, r.key, r.id, r.right, q), BH(s));
    RotLCongruent(Lift(p, s));
  }

  /** Black uncle, z the left child of a right parent: the mirror image. */
  lemma InsertInnerRight(p: Path, s: Tree)
    requires InsertInv(p, s) && p.InLeft? && p.color == Red
    requires p.up.InRight? && !IsRed(p.up.sib)
    ensures
      var r := RotR(Lift(p, s));
      var p1 := InRight(r.left, r.color, r.key, r.id, p.up);
      InsertInv(p1, r.right) && p1.color == Red && Depth(p1) == Depth(p) &&
      Congruent(r, Lift(p, s))
  {
    var q := p.up;
    assert PathBalanced(q, BH(s)) && PathRedFree(q, true) && PathRootBlack(q);
    assert BH(s.left) == BH(s) == BH(s.right) && !IsRed(s.left) && !IsRed(s.right);
    var r := RotR(Lift(p, s));
    assert Balanced(r.right) && BH(r.right) == BH(s) && RedFree(r.right);
    assert PathBalanced(InRight(r.left, r.color, r.key, r.id, q), BH(s));
    RotRCongruent(Lift(p, s));
  }

  /** Black uncle, z the left child of a left parent: the parent turns black,
      the grandparent red, and a right rotation at the grandparent ends the
      red-red edge. */
  lemma InsertOuterLeft(p: Path, s: Tree)
    requires InsertInv(p, s) && p.InLeft? && p.color == Red
    requires p.up.InLeft? && !IsRed(p.up.sib)
    ensures
      var q := p.up;
      var n := RotR(Paint(Lift(q, Blacken(Lift(p, s))), Red));
      n.left == s && n.color == Black &&
      InsertInv(InLeft(n.color, n.key, n.id, n.right, q.up), s) &&
      Depth(q.up) + 2 == Depth(p) &&
      Congruent(n, Lift(q, Lift(p, s)))
  {
    InsertParentRed(p, s);
    var q := p.up;
    assert PathBalanced(q, BH(s)) && PathRedFree(q, true) && PathRootBlack(q);
    assert PathRootBlack(q.up);
    assert BH(p.sib) == BH(s) && BH(q.sib) == BH(s) && !IsRed(p.sib);
    var m := Paint(Lift(q, Blacken(Lift(p, s))), Red);
    RotRCongruent(m);
  }

  /** Black uncle, z the right child of a right parent: the mirror image. */
  lemma InsertOuterRight(p: Path, s: Tree)
    requires InsertInv(p, s) && p.InRight? && p.color == Red
    requires p.up.InRight? && !IsRed(p.up.sib)
    ensures
      var q := p.up;
      var n := RotL(Paint(Lift(q, Blacken(Lift(p, s))), Red));
      n.right == s && n.color == Black &&
      InsertInv(InRight(n.left, n.color, n.key, n.id, q.up), s) &&
      Depth(q.up) + 2 == Depth(p) &&
      Congruent(n, Lift(q, Lift(p, s)))
  {
    InsertParentRed(p, s);
    var q := p.up;
    assert PathBalanced(q, BH(s)) && PathRedFree(q, true) && PathRootBlack(q);
    assert PathRootBlack(q.up);
    assert BH(p.sib) == BH(s) && BH(q.sib) == BH(s) && !IsRed(p.sib);
    var m := Paint(Lift(q, Blacken(Lift(p, s))), Red);
    RotLCongruent(m);
  }

  /** When the loop stops (z is the root or its parent is black), painting
      the root black yields a red-black tree. */
  lemma InsertFinish(p: Path, s: Tree)
    requires InsertInv(p, s) && (p.Top? || p.color == Black)
    ensures RedBlack(Blacken(Plug(p, s)))
    ensures Congruent(Blacken(Plug(p, s)), Plug(p, s))
  {
    BalancedPlug(p, s);
    RedFreePlug(p, s);
  }

  // ---------------------------------------------------------------------------
  // Delete-fixup

  /** The delete-fixup invariant at node x (possibly absent): x's subtree is
      one black node short of its siblings' height, and the tree is otherwise
      red-black, except that x itself and x's parent may both be red and that
      the root may be red when x is the root. */
  ghost predicate DelInv(p: Path, s: Tree) {
    Balanced(s) && PathBalanced(p, BH(s) + 1) && RedFree(Blacken(s)) &&
    PathRedFree(p, false) && PathRootBlack(p)
  }

  /** The progress measure of the delete-fixup loop. */
  function DelMeasure(p: Path, s: Tree): nat {
    2 * Depth(p) + (if IsRed(s) then 0 else 1)
  }

  /** Splicing out a node with at most one child c: when the node was black,
      c carries the black deficiency; when it was red the tree stays
      red-black. p' may differ from the node's path in keys and indices. */
  lemma SpliceOut(p: Path, y: Tree, c: Tree, p': Path)
    requires RedBlack(Plug(p, y)) && SameColors(p, p')
    requires y.Branch? && ((y.left.Leaf? && c == y.right) || (y.right.Leaf? && c == y.left))
    ensures y.color == Black ==> DelInv(p', c)
    ensures y.color == Red ==> RedBlack(Plug(p', c))
  {
    BalancedPlug(p, y);
    RedFreePlug(p, y);
    if p != Top {
      RootColorPlug(p, y);
    }
    SameColorsInvariants(p, p', BH(y), IsRed(y));
    SameColorsInvariants(p, p', BH(c), false);
    if y.color == Red {
      BalancedPlug(p', c);
      RedFreePlug(p', c);
      if p' != Top {
        RootColorPlug(p', c);
      }
    }
  }

  /** Removing a node Z with two children by its successor Y, the leftmost
      node of Z's right subtree R: Y is spliced out at its own path (Concat(m,
      o)) and takes Z's place, so the tree becomes the one with path
      Concat(m, o') above Y's right child. */
  lemma SuccessorSplice(p: Path, Z: Tree)
    requires Z.Branch? && Z.right.Branch?
    ensures
      var R := Z.right;
      var m := MinPath(R, Top);
      var Y := MinNode(R);
      var o := InRight(Z.left, Z.color, Z.key, Z.id, p);
      var o' := InRight(Z.left, Z.color, Y.key, Y.id, p);
      var R' := Plug(m, Y.right);
      Plug(Concat(m, o), Y) == Plug(p, Z) &&
      Plug(Concat(m, o'), Y.right) == Plug(p, Branch(Z.color, Z.left, Y.key, Y.id, R')) &&
      Keys(Plug(Concat(m, o'), Y.right)) == Before(p) + Keys(Z.left) + Keys(Z.right) + After(p) &&
      SameColors(Concat(m, o), Concat(m, o'))
  {
    var R := Z.right;
    var m := MinPath(R, Top);
    var Y := MinNode(R);
    var o := InRight(Z.left, Z.color, Z.key, Z.id, p);
    var o' := InRight(Z.left, Z.color, Y.key, Y.id, p);
    var R' := Plug(m, Y.right);
    MinSplit(R);
    PlugConcat(m, o, Y);
    PlugConcat(m, o', Y.right);
    SuccessorKeys(p, Z, Y.key, Y.id, R');
    SameColorsRefl(p);
    SameColorsConcat(m, o, o');
  }

  /** Regrouping the keys around a spliced-out successor. */
  lemma RegroupKeys(a: seq<Rational>, l: seq<Rational>, k: Rational, r': seq<Rational>, r: seq<Rational>, b: seq<Rational>)
    requires r == [k] + r'
    ensures a + (l + [k] + r') + b == a + l + r + b
  {
    assert l + [k] + r' == l + r;
  }

  /** Replacing Z by a node with key k over Z's left subtree and a right
      subtree that holds Z's right keys without k drops exactly Z's key. */
  lemma SuccessorKeys(p: Path, Z: Tree, k: Rational, y: int, R': Tree)
    requires Z.Branch? && Keys(Z.right) == [k] + Keys(R')
    ensures Keys(Plug(p, Branch(Z.color, Z.left, k, y, R'))) == Before(p) + Keys(Z.left) + Keys(Z.right) + After(p)
  {
    KeysPlug(p, Branch(Z.color, Z.left, k, y, R'));
    RegroupKeys(Before(p), Keys(Z.left), k, Keys(R'), Keys(Z.right), After(p));
  }

  /** A deficient node that is not the root has a sibling that is a node. */
  lemma DelSibling(p: Path, s: Tree)
    requires DelInv(p, s) && p != Top
    ensures p.sib.Branch?
  {
  }

  /** Case 1, x a left child with a red sibling w: w turns black, the parent
      red, and a left rotation at the parent gives x a black sibling. */
  lemma DelRedSiblingLeft(p: Path, s: Tree)
    requires DelInv(p, s) && p.InLeft? && !IsRed(s) && IsRed(p.sib)
    ensures
      var n := RotL(Branch(Red, s, p.key, p.id, Blacken(p.sib)));
      var p' := InLeft(n.left.color, n.left.key, n.left.id, n.left.right,
                       InLeft(n.color, n.key, n.id, n.right, p.up));
      n.left.left == s && DelInv(p', s) && p'.color == Red &&
      p'.sib.Branch? && !IsRed(p'.sib) && Depth(p') == Depth(p) + 1 &&
      Congruent(n, Lift(p, s))
  {
    var m := Branch(Red, s, p.key, p.id, Blacken(p.sib));
    RotLCongruent(m);
  }

  /** Case 1, x a right child with a red sibling: the mirror image. */
  lemma DelRedSiblingRight(p: Path, s: Tree)
    requires DelInv(p, s) && p.InRight? && !IsRed(s) && IsRed(p.sib)
    ensures
      var n := RotR(Branch(Red, Blacken(p.sib), p.key, p.id, s));
      var p' := InRight(n.right.left, n.right.color, n.right.key, n.right.id,
                        InRight(n.left, n.color, n.key, n.id, p.up));
      n.right.right == s && DelInv(p', s) && p'.color == Red &&
      p'.sib.Branch? && !IsRed(p'.sib) && Depth(p') == Depth(p) + 1 &&
      Congruent(n, Lift(p, s))
  {
    var m := Branch(Red, Blacken(p.sib), p.key, p.id, s);
    RotRCongruent(m);
  }

  /** Case 2, black sibling with two black children: the sibling turns red and
      the deficiency moves up to the parent. */
  lemma DelPushUp(p: Path, s: Tree)
    requires DelInv(p, s) && p != Top && !IsRed(s)
    requires p.sib.Branch? && !IsRed(p.sib) && !IsRed(p.sib.left) && !IsRed(p.sib.right)
    ensures
      var q := Lift(Resib(p, Paint(p.sib, Red)), s);
      DelInv(p.up, q) && Congruent(q, Lift(p, s)) && IsRed(q) == (p.color == Red) &&
      Depth(p.up) + 1 == Depth(p)
  {
    var w := p.sib;
    var w' := Paint(w, Red);
    assert BH(w) == BH(s) + 1 && Balanced(w) && RedFree(w);
    assert BH(w') == BH(s) && Balanced(w') && RedFree(w');
    assert Blacken(s) == s;
    assert PathBalanced(p.up, BH(s) + 1 + BlackCount(p.color));
    assert PathRedFree(p.up, p.color == Red);
    if p.color == Red {
      PathRedFreeWeaken(p.up);
    }
    var q := Lift(Resib(p, w'), s);
    assert BH(q) == BH(s) + BlackCount(p.color);
    assert Keys(w') == Keys(w) && Ids(w') == Ids(w) && Size(w') == Size(w);
    assert Keys(q) == Keys(Lift(p, s));
  }

  /** Case 3, x a left child, black sibling w whose right child is black and
      left child red: recolour and rotate right at w, so that w's right child
      becomes red. */
  lemma DelNearNephewLeft(p: Path, s: Tree)
    requires DelInv(p, s) && p.InLeft? && !IsRed(s)
    requires p.sib.Branch? && !IsRed(p.sib) && !IsRed(p.sib.right) && IsRed(p.sib.left)
    ensures
      var w := RotR(Paint(p.sib.(left := Blacken(p.sib.left)), Red));
      DelInv(InLeft(p.color, p.key, p.id, w, p.up), s) && w.Branch? && !IsRed(w) && IsRed(w.right) &&
      Congruent(w, p.sib)
  {
    var w := p.sib;
    assert Balanced(w) && RedFree(w) && BH(w) == BH(s) + 1;
    assert RedFree(w.left) && RedFree(w.right) && !IsRed(w.left.left) && !IsRed(w.left.right);
    var c := w.left;
    assert Balanced(c) && c.color == Red;
    assert BH(c.left) == BH(c.right) == BH(c);
    var m := Paint(w.(left := Blacken(w.left)), Red);
    RotRCongruent(m);
    var w' := RotR(m);
    assert w'.left == c.left && w'.right == Branch(Red, c.right, w.key, w.id, w.right);
    assert Balanced(w'.right) && BH(w'.right) == BH(c);
    assert w.color == Black && w'.color == Black;
    assert BH(w') == BH(w'.left) + 1;
    assert BH(w) == BH(w.left) + 1;
    assert Balanced(w') && RedFree(w') && BH(w') == BH(w);
    assert PathBalanced(InLeft(p.color, p.key, p.id, w', p.up), BH(s) + 1);
    assert PathRedFree(InLeft(p.color, p.key, p.id, w', p.up), false);
  }

  /** Case 3, x a right child: the mirror image. */
  lemma DelNearNephewRight(p: Path, s: Tree)
    requires DelInv(p, s) && p.InRight? && !IsRed(s)
    requires p.sib.Branch? && !IsRed(p.sib) && !IsRed(p.sib.left) && IsRed(p.sib.right)
    ensures
      var w := RotL(Paint(p.sib.(right := Blacken(p.sib.right)), Red));
      DelInv(InRight(w, p.color, p.key, p.id, p.up), s) && w.Branch? && !IsRed(w) && IsRed(w.left) &&
      Congruent(w, p.sib)
  {
    var w := p.sib;
    assert Balanced(w) && RedFree(w) && BH(w) == BH(s) + 1;
    assert RedFree(w.right) && RedFree(w.left) && !IsRed(w.right.left) && !IsRed(w.right.right);
    var c := w.right;
    assert Balanced(c) && c.color == Red;
    assert BH(c.left) == BH(c.right) == BH(c);
    var m := Paint(w.(right := Blacken(w.right)), Red);
    RotLCongruent(m);
    var w' := RotL(m);
    assert w'.right == c.right && w'.left == Branch(Red, w.left, w.key, w.id, c.left);
    assert Balanced(w'.left) && BH(w'.left) == BH(c);
    assert w.color == Black && w'.color == Black;
    assert BH(w') == BH(w'.left) + 1;
    assert BH(w) == BH(w.left) + 1;
    assert Balanced(w') && RedFree(w') && BH(w') == BH(w);
    assert PathBalanced(InRight(w', p.color, p.key, p.id, p.up), BH(s) + 1);
    assert PathRedFree(InRight(w', p.color, p.key, p.id, p.up), false);
  }

  /** Case 4, x a left child, black sibling w with a red right child: w takes
      the parent's colour, the parent and w's right child turn black, and a
      left rotation at the parent removes the deficiency. */
  lemma DelFarNephewLeft(p: Path, s: Tree)
    requires DelInv(p, s) && p.InLeft? && !IsRed(s)
    requires p.sib.Branch? && !IsRed(p.sib) && IsRed(p.sib.right)
    ensures
      var w := p.sib;
      var n := RotL(Branch(Black, s, p.key, p.id,
                           Branch(p.color, w.left, w.key, w.id, Blacken(w.right))));
      DelInv(Top, Plug(p.up, n)) && Congruent(n, Lift(p, s))
  {
    var w := p.sib;
    var h := BH(s);
    assert Balanced(w) && RedFree(w) && BH(w) == h + 1 && w.color == Black;
    var r := w.right;
    assert Balanced(r) && RedFree(r) && r.color == Red && BH(r) == h && BH(w.left) == h;
    assert Blacken(s) == s;
    var n := RotL(Branch(Black, s, p.key, p.id, Branch(p.color, w.left, w.key, w.id, Blacken(r))));
    assert n == Branch(p.color, Branch(Black, s, p.key, p.id, w.left), w.key, w.id, Blacken(r));
    assert Balanced(n.left) && RedFree(n.left) && BH(n.left) == h + 1;
    assert Balanced(n.right) && RedFree(n.right) && BH(n.right) == h + 1;
    assert Balanced(n) && RedFree(n) && BH(n) == h + 1 + BlackCount(p.color);
    assert PathBalanced(p.up, h + 1 + BlackCount(p.color));
    assert PathRedFree(p.up, p.color == Red);
    BalancedPlug(p.up, n);
    RedFreePlug(p.up, n);
    var t := Plug(p.up, n);
    assert RedFree(Blacken(t));
    PaintCongruent(r, Black);
    BranchCongruent(p.color, w.left, w.key, w.id, Blacken(r), w.color, w.left, r);
    BranchCongruent(Black, s, p.key, p.id, Branch(p.color, w.left, w.key, w.id, Blacken(r)), p.color, s, w);
    RotLCongruent(Branch(Black, s, p.key, p.id, Branch(p.color, w.left, w.key, w.id, Blacken(r))));
  }

  /** Case 4, x a right child: the mirror image. */
  lemma DelFarNephewRight(p: Path, s: Tree)
    requires DelInv(p, s) && p.InRight? && !IsRed(s)
    requires p.sib.Branch? && !IsRed(p.sib) && IsRed(p.sib.left)
    ensures
      var w := p.sib;
      var n := RotR(Branch(Black, Branch(p.color, Blacken(w.left), w.key, w.id, w.right),
                           p.key, p.id, s));
      DelInv(Top, Plug(p.up, n)) && Congruent(n, Lift(p, s))
  {
    var w := p.sib;
    var h := BH(s);
    assert Balanced(w) && RedFree(w) && BH(w) == h + 1 && w.color == Black;
    var l := w.left;
    assert Balanced(l) && RedFree(l) && l.color == Red && BH(l) == h && BH(w.right) == h;
    assert Blacken(s) == s;
    var n := RotR(Branch(Black, Branch(p.color, Blacken(l), w.key, w.id, w.right), p.key, p.id, s));
    assert n == Branch(p.color, Blacken(l), w.key, w.id, Branch(Black, w.right, p.key, p.id, s));
    assert Balanced(n.left) && RedFree(n.left) && BH(n.left) == h + 1;
    assert Balanced(n.right) && RedFree(n.right) && BH(n.right) == h + 1;
    assert Balanced(n) && RedFree(n) && BH(n) == h + 1 + BlackCount(p.color);
    assert PathBalanced(p.up, h + 1 + BlackCount(p.color));
    assert PathRedFree(p.up, p.color == Red);
    BalancedPlug(p.up, n);
    RedFreePlug(p.up, n);
    var t := Plug(p.up, n);
    assert RedFree(Blacken(t));
    PaintCongruent(l, Black);
    BranchCongruent(p.color, Blacken(l), w.key, w.id, w.right, w.color, l, w.right);
    BranchCongruent(Black, Branch(p.color, Blacken(l), w.key, w.id, w.right), p.key, p.id, s, p.color, w, s);
    RotRCongruent(Branch(Black, Branch(p.color, Blacken(l), w.key, w.id, w.right), p.key, p.id, s));
  }

  /** When the loop stops (x is the root or red), painting x black yields a
      red-black tree. */
  lemma DelFinish(p: Path, s: Tree)
    requires DelInv(p, s) && (p.Top? || IsRed(s))
    ensures RedBlack(Plug(p, Blacken(s)))
    ensures Congruent(Plug(p, Blacken(s)), Plug(p, s))
  {
    BalancedPlug(p, Blacken(s));
    RedFreePlug(p, Blacken(s));
    if p != Top {
      RootColorPlug(p, Blacken(s));
    }
    PlugCongruent(p, Blacken(s), s);
  }

  /** The successor Y, cut out of Z's right subtree R and put above the rest
      R' of it, keeps the indices of the tree distinct. */
  lemma SuccessorDistinct(p: Path, Z: Tree)
    requires Z.Branch? && Z.right.Branch? && Distinct(Plug(p, Z))
    ensures
      var Y := MinNode(Z.right);
      var V := Branch(Y.color, Leaf, Y.key, Y.id, Plug(MinPath(Z.right, Top), Y.right));
      Distinct(Plug(p, Branch(Z.color, Z.left, V.key, Z.id, V)))
  {
    var Y := MinNode(Z.right);
    var V := Branch(Y.color, Leaf, Y.key, Y.id, Plug(MinPath(Z.right, Top), Y.right));
    var W := Branch(Z.color, Z.left, V.key, Z.id, V);
    DistinctPlug(p, Z);
    assert Distinct(Z.right) && Ids(Z) == Ids(Z.left) + {Z.id} + Ids(Z.right);
    MinSplit(Z.right);
    assert Ids(V) == Ids(Z.right) && Distinct(V);
    assert Distinct(W) && Ids(W) == Ids(Z);
    DistinctPlug(p, W);
  }
}
