/** Three places where the source's code departs from what it evidently
    intends: the rank query, and two null dereferences in deletion. Each is
    modelled as written and exhibited on trees the test program builds; the
    corrected behaviour is what OrderStatistics implements. */
module Findings {
  import opened Rationals
  import opened RbShapes
  import opened Scenario

  /** The source's findKth as written: it answers with the current key
      whenever k is 1, and counts a left subtree as one node however large
      it is. */
  function FindKthAsWritten(t: Tree, k: int): (r: Rational)
    ensures r == Rational(0, 1) || r in Keys(t)
    ensures t.Leaf? ==> r == Rational(0, 1)
    decreases t
  {
    if t.Leaf? then Rational(0, 1)
    else if k == 1 then t.key
    else
      var leftSize := if t.left.Branch? then 1 else 0;
      if k == leftSize + 1 then t.key
      else if k <= leftSize then FindKthAsWritten(t.left, k)
      else FindKthAsWritten(t.right, k - (leftSize + 1))
  }

  /** The tree the test program's six inserts build (slots in insertion
      order): 3/2 black over 1/2 black (right child 2/1 red) and 5/2 black
      (children 4/1 red and 7/3 red). This shape is traced by hand through
      insert and fixInsertion; it is not proved to be what the arena
      methods build. */
  function SixKeys(): Tree {
    Branch(Black,
      Branch(Black, Leaf, Rational(1, 2), 1, Branch(Red, Leaf, Rational(2, 1), 3, Leaf)),
      Rational(3, 2), 0,
      Branch(Black, Branch(Red, Leaf, Rational(4, 1), 5, Leaf), Rational(5, 2), 2, Branch(Red, Leaf, Rational(7, 3), 4, Leaf)))
  }

  /** The same tree after removing 3/2: its successor 4/1 takes the root's
      place and colour, and 5/2 keeps only 7/3. Traced by hand through
      deleteNode like SixKeys(), not proved. */
  function FiveKeys(): Tree {
    Branch(Black,
      Branch(Black, Leaf, Rational(1, 2), 1, Branch(Red, Leaf, Rational(2, 1), 3, Leaf)),
      Rational(4, 1), 5,
      Branch(Black, Leaf, Rational(5, 2), 2, Branch(Red, Leaf, Rational(7, 3), 4, Leaf)))
  }

  // Facts about the two concrete trees, one per lemma so that each stays
  // small for the solver.

  /** A node over two balanced subtrees of equal black height is balanced. */
  lemma BranchBalanced(c: Color, l: Tree, k: Rational, n: int, r: Tree)
    requires Balanced(l) && Balanced(r) && BH(l) == BH(r)
    ensures Balanced(Branch(c, l, k, n, r)) && BH(Branch(c, l, k, n, r)) == BH(l) + BlackCount(c)
  {
  }

  lemma SixKeysBalanced()
    ensures Balanced(SixKeys())
  {
    var a := Branch(Red, Leaf, Rational(2, 1), 3, Leaf);
    BranchBalanced(Red, Leaf, Rational(2, 1), 3, Leaf);
    BranchBalanced(Black, Leaf, Rational(1, 2), 1, a);
    var b := Branch(Red, Leaf, Rational(4, 1), 5, Leaf);
    var c := Branch(Red, Leaf, Rational(7, 3), 4, Leaf);
    BranchBalanced(Red, Leaf, Rational(4, 1), 5, Leaf);
    BranchBalanced(Red, Leaf, Rational(7, 3), 4, Leaf);
    BranchBalanced(Black, b, Rational(5, 2), 2, c);
    BranchBalanced(Black, Branch(Black, Leaf, Rational(1, 2), 1, a), Rational(3, 2), 0, Branch(Black, b, Rational(5, 2), 2, c));
  }

  lemma SixKeysRedFree()
    ensures RedFree(SixKeys()) && !IsRed(SixKeys())
  {
  }

  lemma SixKeysDistinct()
    ensures Distinct(SixKeys())
  {
  }

  lemma SixKeysInOrder()
    ensures Keys(SixKeys()) == InOrder()
  {
  }

  lemma FiveKeysBalanced()
    ensures Balanced(FiveKeys())
  {
    var a := Branch(Red, Leaf, Rational(2, 1), 3, Leaf);
    BranchBalanced(Red, Leaf, Rational(2, 1), 3, Leaf);
    BranchBalanced(Black, Leaf, Rational(1, 2), 1, a);
    var c := Branch(Red, Leaf, Rational(7, 3), 4, Leaf);
    BranchBalanced(Red, Leaf, Rational(7, 3), 4, Leaf);
    BranchBalanced(Black, Leaf, Rational(5, 2), 2, c);
    BranchBalanced(Black, Branch(Black, Leaf, Rational(1, 2), 1, a), Rational(4, 1), 5, Branch(Black, Leaf, Rational(5, 2), 2, c));
  }

  lemma FiveKeysRedFree()
    ensures RedFree(FiveKeys()) && !IsRed(FiveKeys())
  {
  }

  lemma FiveKeysDistinct()
    ensures Distinct(FiveKeys())
  {
  }

  lemma FiveKeysInOrder()
    ensures Keys(FiveKeys()) == AfterRemoval()
  {
  }

  /** On the tree the six inserts build the as-written query misranks: the
      third key is 3/2 but it answers 5/2, and for the first key it answers
      the root 3/2 instead of 1/2. */
  lemma FindKthAsWrittenMisranks()
    ensures RedBlack(SixKeys()) && Distinct(SixKeys()) && Keys(SixKeys()) == InOrder()
    ensures Keys(SixKeys())[2] == Rational(3, 2) && FindKthAsWritten(SixKeys(), 3) == Rational(5, 2)
    ensures Keys(SixKeys())[0] == Rational(1, 2) && FindKthAsWritten(SixKeys(), 1) == Rational(3, 2)
  {
    SixKeysBalanced();
    SixKeysRedFree();
    SixKeysDistinct();
    SixKeysInOrder();
  }

  /** After removing 3/2 the third key is 4/1, and the as-written query
      again answers 5/2. */
  lemma FindKthAsWrittenMisranksAfterRemoval()
    ensures RedBlack(FiveKeys()) && Distinct(FiveKeys()) && Keys(FiveKeys()) == AfterRemoval()
    ensures Keys(FiveKeys())[2] == Rational(4, 1) && FindKthAsWritten(FiveKeys(), 3) == Rational(5, 2)
  {
    FiveKeysBalanced();
    FiveKeysRedFree();
    FiveKeysDistinct();
    FiveKeysInOrder();
  }

  /** What a pointer step of the source touches: nothing, null, or the node
      in a slot. */
  datatype Access = NoAccess | NullDeref | Node(slot: int)

  /** The slots on the way from the root of t (under up) down to MinNode(t)
      other than the root: when t has a left child, the parent of its
      leftmost node is a node of t. */
  lemma {:induction false} MinPathParent(t: Tree, up: Path)
    requires t.Branch?
    ensures t.left.Leaf? ==> MinPath(t, up) == up
    ensures t.left.Branch? ==> MinPath(t, up) != Top && Above(MinPath(t, up), NIL) in Ids(t)
  {
    if t.left.Branch? && t.left.left.Branch? {
      MinPathParent(t.left, InLeft(t.color, t.key, t.id, t.right, up));
    }
  }

  /** The two-children branch of deleteNode as written, for z at p: y is the
      minimum of z's right subtree and x is y's right child. When y's parent
      is z, the code sets x's parent without checking x; otherwise it sets
      the parent of z's old right child, which it has just hung under y. The
      result is the node whose parent field the branch writes without a null
      check: x at line 207, or z's old right child at line 211. */
  function SuccessorRelinkAsWritten(p: Path, z: Tree): (a: Access)
    requires z.Branch? && z.left.Branch? && z.right.Branch?
    ensures !a.NoAccess?
    ensures z.right.left.Leaf? ==> (a.NullDeref? <==> z.right.right.Leaf?)
  {
    var y := MinNode(z.right);
    var yPath := MinPath(z.right, InRight(z.left, z.color, z.key, z.id, p));
    var x := y.right;
    if Above(yPath, NIL) == z.id then
      (if x.Leaf? then NullDeref else Node(x.id))
    else Node(z.right.id)
  }

  /** For every node z with two children in a tree without repeated slots,
      the branch writes through null exactly when z's right child has no
      children: then it is its own successor and has no right child. */
  lemma SuccessorRelinkNull(p: Path, z: Tree)
    requires z.Branch? && z.left.Branch? && z.right.Branch?
    requires Distinct(Plug(p, z))
    ensures SuccessorRelinkAsWritten(p, z).NullDeref? <==> z.right.left.Leaf? && z.right.right.Leaf?
  {
    DistinctPlug(p, z);
    MinPathParent(z.right, InRight(z.left, z.color, z.key, z.id, p));
  }

  /** Inserting 3/2, 1/2, 5/2 builds 3/2 black over two red leaves (traced
      by hand). */
  function ThreeKeys(): Tree {
    Branch(Black, Branch(Red, Leaf, Rational(1, 2), 1, Leaf), Rational(3, 2), 0, Branch(Red, Leaf, Rational(5, 2), 2, Leaf))
  }

  /** Removing 3/2 from ThreeKeys() reaches that write with no right child:
      the successor 5/2 is a red leaf. */
  lemma DirectSuccessorDereferencesNull()
    ensures RedBlack(ThreeKeys()) && Distinct(ThreeKeys())
    ensures Sorted(Keys(ThreeKeys()))
    ensures SuccessorRelinkAsWritten(Top, ThreeKeys()).NullDeref?
  {
    SortedFromSteps([Rational(1, 2), Rational(3, 2), Rational(5, 2)]);
  }

  /** deleteNode as written for a node z at p with at most one child,
      followed by the entry of fixDeletion: x is the child that replaces z
      and the root is the root after the transplant. When z was black,
      fixDeletion(x) tests that x is not the root and is null or black, and
      then reads x's parent. */
  function SpliceEntryAsWritten(p: Path, z: Tree): (a: Access)
    requires z.Branch? && (z.left.Leaf? || z.right.Leaf?)
    ensures p.Top? ==> a.NoAccess?
  {
    var x := if z.left.Leaf? then z.right else z.left;
    var root := Id(Plug(p, x));
    if z.color == Black && Id(x) != root && (x.Leaf? || x.color == Black) then
      (if x.Leaf? then NullDeref else Node(x.id))
    else NoAccess
  }

  /** For every node z with at most one child in a tree whose slots are
      distinct and real, fixDeletion reads through null exactly when z is a
      black node without children below the root. */
  lemma SpliceEntryNull(p: Path, z: Tree)
    requires z.Branch? && (z.left.Leaf? || z.right.Leaf?)
    requires Distinct(Plug(p, z)) && NIL !in Ids(Plug(p, z))
    ensures SpliceEntryAsWritten(p, z).NullDeref? <==>
            z.color == Black && z.left.Leaf? && z.right.Leaf? && !p.Top?
  {
    var x := if z.left.Leaf? then z.right else z.left;
    IdsPlug(p, x);
    IdsPlug(p, z);
    if !p.Top? {
      RootOfInPath(p, Id(x));
      DistinctPlug(p, z);
    }
  }

  /** Inserting 3/2, 1/2, 5/2, 2/1 recolours 1/2 and 5/2 black and hangs 2/1
      red under 1/2 (traced by hand): the path from the root down to the
      black leaf 5/2. */
  function AboveFiveHalves(): Path {
    InRight(Branch(Black, Leaf, Rational(1, 2), 1, Branch(Red, Leaf, Rational(2, 1), 3, Leaf)), Black, Rational(3, 2), 0, Top)
  }

  function FiveHalves(): Tree {
    Branch(Black, Leaf, Rational(5, 2), 2, Leaf)
  }

  /** The whole tree: AboveFiveHalves() with FiveHalves() plugged in. */
  function FourKeys(): Tree {
    Branch(Black,
      Branch(Black, Leaf, Rational(1, 2), 1, Branch(Red, Leaf, Rational(2, 1), 3, Leaf)),
      Rational(3, 2), 0,
      Branch(Black, Leaf, Rational(5, 2), 2, Leaf))
  }

  lemma FourKeysPlug()
    ensures Plug(AboveFiveHalves(), FiveHalves()) == FourKeys()
  {
  }

  lemma FourKeysBalanced()
    ensures Balanced(FourKeys())
  {
  }

  lemma FourKeysRedFree()
    ensures RedFree(FourKeys()) && !IsRed(FourKeys())
  {
  }

  lemma FourKeysDistinct()
    ensures Distinct(FourKeys())
  {
  }

  lemma FourKeysSorted()
    ensures Sorted(Keys(FourKeys()))
  {
    assert Keys(FourKeys()) == [Rational(1, 2), Rational(2, 1), Rational(3, 2), Rational(5, 2)];
    SortedFromSteps([Rational(1, 2), Rational(2, 1), Rational(3, 2), Rational(5, 2)]);
  }

  /** Removing 5/2 removes a black leaf below the root, so fixDeletion starts
      on a null x and reads its parent. */
  lemma BlackLeafRemovalDereferencesNull()
    ensures Plug(AboveFiveHalves(), FiveHalves()) == FourKeys()
    ensures RedBlack(FourKeys()) && Distinct(FourKeys()) && Sorted(Keys(FourKeys()))
    ensures SpliceEntryAsWritten(AboveFiveHalves(), FiveHalves()).NullDeref?
  {
    FourKeysPlug();
    FourKeysBalanced();
    FourKeysRedFree();
    FourKeysDistinct();
    FourKeysSorted();
  }
}
