/** The node store of the tree: one record per node, with child and parent
    links as slot indices and NIL for a null pointer, and the predicates that
    tie a slot sequence to an abstract tree. */
module Arena {
  import opened Rationals
  import opened RbShapes

  /** The fields of one tree node: key, colour and the three links. */
  datatype Node = Node(key: Rational, color: Color, left: int, right: int, parent: int)

  /** Tree t is stored in A, and the parent link of its root is par. */
  ghost predicate Linked(t: Tree, par: int, A: seq<Node>) {
    match t
    case Leaf => true
    case Branch(c, l, k, n, r) =>
      0 <= n < |A| && A[n] == Node(k, c, Id(l), Id(r), par) &&
      Linked(l, n, A) && Linked(r, n, A)
  }

  /** The frames of p are stored in A: the nearest frame's child link on p's
      side is below, and the outermost frame's parent link is top. */
  ghost predicate LinkedPath(p: Path, below: int, top: int, A: seq<Node>) {
    match p
    case Top => true
    case InLeft(c, k, n, sib, up) =>
      0 <= n < |A| && A[n] == Node(k, c, below, Id(sib), Above(up, top)) &&
      Linked(sib, n, A) && LinkedPath(up, n, top, A)
    case InRight(sib, c, k, n, up) =>
      0 <= n < |A| && A[n] == Node(k, c, Id(sib), below, Above(up, top)) &&
      Linked(sib, n, A) && LinkedPath(up, n, top, A)
  }

  /** A and root store the whole tree t: every node once, and root is its root
      slot (NIL for the empty tree). */
  ghost predicate Represents(t: Tree, A: seq<Node>, root: int) {
    Linked(t, NIL, A) && Distinct(t) && root == Id(t)
  }

  /** B differs from A at most in the slots of S. */
  ghost predicate ChangedOnly(A: seq<Node>, B: seq<Node>, S: set<int>) {
    |A| == |B| && forall i | 0 <= i < |A| && i !in S :: A[i] == B[i]
  }

  /** Every slot of a stored tree is in range, so none of them is NIL. */
  lemma {:induction false} LinkedInRange(t: Tree, par: int, A: seq<Node>)
    requires Linked(t, par, A)
    ensures forall i | i in Ids(t) :: 0 <= i < |A|
  {
    match t
    case Leaf =>
    case Branch(_, l, _, n, r) =>
      LinkedInRange(l, n, A);
      LinkedInRange(r, n, A);
  }

  lemma {:induction false} LinkedPathInRange(p: Path, below: int, top: int, A: seq<Node>)
    requires LinkedPath(p, below, top, A)
    ensures forall i | i in PathIds(p) :: 0 <= i < |A|
  {
    if !p.Top? {
      LinkedInRange(p.sib, p.id, A);
      LinkedPathInRange(p.up, p.id, top, A);
    }
  }

  /** Writes outside a tree's slots leave it stored. */
  lemma {:induction false} LinkedFrame(t: Tree, par: int, A: seq<Node>, B: seq<Node>, S: set<int>)
    requires Linked(t, par, A) && ChangedOnly(A, B, S) && Ids(t) !! S
    ensures Linked(t, par, B)
  {
    match t
    case Leaf =>
    case Branch(_, l, _, n, r) =>
      LinkedFrame(l, n, A, B, S);
      LinkedFrame(r, n, A, B, S);
  }

  lemma {:induction false} LinkedPathFrame(p: Path, below: int, top: int, A: seq<Node>, B: seq<Node>, S: set<int>)
    requires LinkedPath(p, below, top, A) && ChangedOnly(A, B, S) && PathIds(p) !! S
    ensures LinkedPath(p, below, top, B)
  {
    if !p.Top? {
      LinkedFrame(p.sib, p.id, A, B, S);
      LinkedPathFrame(p.up, p.id, top, A, B, S);
    }
  }

  /** Appending a slot leaves every stored tree stored. */
  lemma {:induction false} LinkedAppend(t: Tree, par: int, A: seq<Node>, v: Node)
    requires Linked(t, par, A)
    ensures Linked(t, par, A + [v])
  {
    match t
    case Leaf =>
    case Branch(_, l, _, n, r) =>
      LinkedAppend(l, n, A, v);
      LinkedAppend(r, n, A, v);
  }

  lemma {:induction false} LinkedPathAppend(p: Path, below: int, top: int, A: seq<Node>, v: Node)
    requires LinkedPath(p, below, top, A)
    ensures LinkedPath(p, below, top, A + [v])
  {
    if !p.Top? {
      LinkedAppend(p.sib, p.id, A, v);
      LinkedPathAppend(p.up, p.id, top, A, v);
    }
  }

  /** A tree is stored exactly when the subtree at p and the frames of p are. */
  lemma {:induction false} LinkedSplit(p: Path, s: Tree, top: int, A: seq<Node>)
    ensures Linked(Plug(p, s), top, A) <==> Linked(s, Above(p, top), A) && LinkedPath(p, Id(s), top, A)
  {
    match p
    case Top =>
    case InLeft(c, k, n, sib, up) =>
      LinkedSplit(up, Branch(c, s, k, n, sib), top, A);
    case InRight(sib, c, k, n, up) =>
      LinkedSplit(up, Branch(c, sib, k, n, s), top, A);
  }

  /** The whole tree seen from the subtree s at p. */
  lemma RepresentsSplit(p: Path, s: Tree, A: seq<Node>, root: int)
    ensures Represents(Plug(p, s), A, root) <==>
      Linked(s, Above(p, NIL), A) && LinkedPath(p, Id(s), NIL, A) &&
      Distinct(Plug(p, s)) && root == RootOf(p, Id(s))
    ensures Distinct(Plug(p, s)) <==> Distinct(s) && PathDistinct(p) && Ids(s) !! PathIds(p)
  {
    LinkedSplit(p, s, NIL, A);
    IdsPlug(p, s);
    DistinctPlug(p, s);
  }

  /** Everything a view of a stored tree tells about the slots. */
  lemma ViewFacts(p: Path, s: Tree, A: seq<Node>, root: int)
    requires Represents(Plug(p, s), A, root)
    ensures Linked(s, Above(p, NIL), A) && LinkedPath(p, Id(s), NIL, A)
    ensures Distinct(s) && PathDistinct(p) && Ids(s) !! PathIds(p)
    ensures root == RootOf(p, Id(s))
    ensures forall i | i in Ids(s) :: 0 <= i < |A|
    ensures forall i | i in PathIds(p) :: 0 <= i < |A|
  {
    RepresentsSplit(p, s, A, root);
    LinkedInRange(s, Above(p, NIL), A);
    LinkedPathInRange(p, Id(s), NIL, A);
  }

  /** Changing the parent link of a tree's root slot. */
  lemma LinkedReparent(t: Tree, par: int, par': int, A: seq<Node>, B: seq<Node>, S: set<int>)
    requires Linked(t, par, A) && Distinct(t) && ChangedOnly(A, B, S)
    requires t.Branch? ==> (Ids(t.left) + Ids(t.right)) !! S
    requires t.Branch? ==> B[t.id] == A[t.id].(parent := par')
    ensures Linked(t, par', B)
  {
    if t.Branch? {
      LinkedFrame(t.left, t.id, A, B, S);
      LinkedFrame(t.right, t.id, A, B, S);
    }
  }

  /** Changing the child link of the nearest frame of a path. */
  lemma LinkedPathRelink(p: Path, below: int, below': int, top: int, A: seq<Node>, B: seq<Node>, S: set<int>)
    requires LinkedPath(p, below, top, A) && p != Top && ChangedOnly(A, B, S)
    requires (Ids(p.sib) + PathIds(p.up)) !! S
    requires B[p.id] == (if p.InLeft? then A[p.id].(left := below') else A[p.id].(right := below'))
    ensures LinkedPath(p, below', top, B)
  {
    LinkedFrame(p.sib, p.id, A, B, S);
    LinkedPathFrame(p.up, p.id, top, A, B, S);
  }

  /** The frame on p's side of a stored path links to below, and the other
      side does not, so comparing a link with below tells the side. */
  lemma PathSide(p: Path, below: int, top: int, A: seq<Node>)
    requires LinkedPath(p, below, top, A) && p != Top && below !in Ids(p.sib)
    requires below == NIL ==> p.sib.Branch?
    ensures 0 <= p.id < |A|
    ensures A[p.id].left == below <==> p.InLeft?
    ensures A[p.id].right == below <==> p.InRight?
  {
  }

  /** Recolouring the root slot of a subtree recolours that subtree. */
  lemma Repaint(p: Path, t: Tree, c: Color, A: seq<Node>, root: int)
    requires Represents(Plug(p, t), A, root) && t.Branch?
    ensures 0 <= t.id < |A|
    ensures Represents(Plug(p, Paint(t, c)), A[t.id := A[t.id].(color := c)], root)
  {
    ViewFacts(p, t, A, root);
    var B := A[t.id := A[t.id].(color := c)];
    var S := {t.id};
    assert ChangedOnly(A, B, S);
    LinkedFrame(t.left, t.id, A, B, S);
    LinkedFrame(t.right, t.id, A, B, S);
    LinkedPathFrame(p, t.id, NIL, A, B, S);
    PaintCongruent(t, c);
    PlugCongruent(p, Paint(t, c), t);
    RepresentsSplit(p, Paint(t, c), B, root);
  }

  /** The slots a left rotation at subtree t of p touches: x (t's root), its
      right child y, y's left child and x's parent, all distinct. */
  lemma RotateLeftSlots(p: Path, t: Tree, A: seq<Node>, root: int)
    requires Represents(Plug(p, t), A, root) && t.Branch? && t.right.Branch?
    ensures 0 <= t.id < |A| && 0 <= t.right.id < |A| && t.id != t.right.id
    ensures A[t.id] == Node(t.key, t.color, Id(t.left), t.right.id, Above(p, NIL))
    ensures A[t.right.id] == Node(t.right.key, t.right.color, Id(t.right.left), Id(t.right.right), t.id)
    ensures Id(t.right.left) != NIL ==> 0 <= Id(t.right.left) < |A|
    ensures Id(t.right.left) != t.id && Id(t.right.left) != t.right.id
    ensures Above(p, NIL) != t.id && Above(p, NIL) != t.right.id
    ensures p != Top ==> p.id != Id(t.right.left)
    ensures p != Top ==> 0 <= p.id < |A| && PathIds(p) !! Ids(t)
    ensures p != Top ==> (A[p.id].left == t.id <==> p.InLeft?)
  {
    ViewFacts(p, t, A, root);
    ViewNodes(p, t, A, root);
    ViewNodes(InRight(t.left, t.color, t.key, t.id, p), t.right, A, root);
    if p != Top {
      PathSide(p, t.id, NIL, A);
    }
  }

  /** The slots a right rotation at subtree t of p touches, the mirror image. */
  lemma RotateRightSlots(p: Path, t: Tree, A: seq<Node>, root: int)
    requires Represents(Plug(p, t), A, root) && t.Branch? && t.left.Branch?
    ensures 0 <= t.id < |A| && 0 <= t.left.id < |A| && t.id != t.left.id
    ensures A[t.id] == Node(t.key, t.color, t.left.id, Id(t.right), Above(p, NIL))
    ensures A[t.left.id] == Node(t.left.key, t.left.color, Id(t.left.left), Id(t.left.right), t.id)
    ensures Id(t.left.right) != NIL ==> 0 <= Id(t.left.right) < |A|
    ensures Id(t.left.right) != t.id && Id(t.left.right) != t.left.id
    ensures Above(p, NIL) != t.id && Above(p, NIL) != t.left.id
    ensures p != Top ==> p.id != Id(t.left.right)
    ensures p != Top ==> 0 <= p.id < |A| && PathIds(p) !! Ids(t)
    ensures p != Top ==> (A[p.id].right == t.id <==> p.InRight?)
  {
    ViewFacts(p, t, A, root);
    ViewNodes(p, t, A, root);
    ViewNodes(InLeft(t.color, t.key, t.id, t.right, p), t.left, A, root);
    if p != Top {
      PathSide(p, t.id, NIL, A);
    }
  }

  /** The slot writes of a left rotation at subtree t of p store the rotated
      tree. */
  lemma RotateLeftStored(p: Path, t: Tree, A: seq<Node>, B: seq<Node>, root: int, root': int)
    requires Represents(Plug(p, t), A, root) && t.Branch? && t.right.Branch?
    requires 0 <= t.id < |A| && 0 <= t.right.id < |A|
    requires Id(t.right.left) != NIL ==> 0 <= Id(t.right.left) < |A|
    requires p != Top ==> 0 <= p.id < |A|
    requires ChangedOnly(A, B, {t.id, t.right.id, Id(t.right.left), Above(p, NIL)})
    requires B[t.id] == Node(t.key, t.color, Id(t.left), Id(t.right.left), t.right.id)
    requires B[t.right.id] == Node(t.right.key, t.right.color, t.id, Id(t.right.right), Above(p, NIL))
    requires Id(t.right.left) != NIL ==> B[Id(t.right.left)] == A[Id(t.right.left)].(parent := t.id)
    requires p != Top ==> B[p.id] == (if p.InLeft? then A[p.id].(left := t.right.id) else A[p.id].(right := t.right.id))
    requires root' == (if p.Top? then t.right.id else root)
    ensures Represents(Plug(p, RotL(t)), B, root')
  {
    ViewFacts(p, t, A, root);
    var S := {t.id, t.right.id, Id(t.right.left), Above(p, NIL)};
    var Y := t.right;
    LinkedFrame(t.left, t.id, A, B, S);
    LinkedReparent(Y.left, Y.id, t.id, A, B, S);
    LinkedFrame(Y.right, Y.id, A, B, S);
    assert Linked(RotL(t), Above(p, NIL), B);
    if p != Top {
      LinkedPathRelink(p, t.id, Y.id, NIL, A, B, S);
    }
    RotLCongruent(t);
    PlugCongruent(p, RotL(t), t);
    RepresentsSplit(p, RotL(t), B, root');
  }

  /** The slot writes of a right rotation store the rotated tree. */
  lemma RotateRightStored(p: Path, t: Tree, A: seq<Node>, B: seq<Node>, root: int, root': int)
    requires Represents(Plug(p, t), A, root) && t.Branch? && t.left.Branch?
    requires 0 <= t.id < |A| && 0 <= t.left.id < |A|
    requires Id(t.left.right) != NIL ==> 0 <= Id(t.left.right) < |A|
    requires p != Top ==> 0 <= p.id < |A|
    requires ChangedOnly(A, B, {t.id, t.left.id, Id(t.left.right), Above(p, NIL)})
    requires B[t.id] == Node(t.key, t.color, Id(t.left.right), Id(t.right), t.left.id)
    requires B[t.left.id] == Node(t.left.key, t.left.color, Id(t.left.left), t.id, Above(p, NIL))
    requires Id(t.left.right) != NIL ==> B[Id(t.left.right)] == A[Id(t.left.right)].(parent := t.id)
    requires p != Top ==> B[p.id] == (if p.InLeft? then A[p.id].(left := t.left.id) else A[p.id].(right := t.left.id))
    requires root' == (if p.Top? then t.left.id else root)
    ensures Represents(Plug(p, RotR(t)), B, root')
  {
    ViewFacts(p, t, A, root);
    var S := {t.id, t.left.id, Id(t.left.right), Above(p, NIL)};
    var Y := t.left;
    LinkedFrame(Y.left, Y.id, A, B, S);
    LinkedReparent(Y.right, Y.id, t.id, A, B, S);
    LinkedFrame(t.right, t.id, A, B, S);
    assert Linked(RotR(t), Above(p, NIL), B);
    if p != Top {
      LinkedPathRelink(p, t.id, Y.id, NIL, A, B, S);
    }
    RotRCongruent(t);
    PlugCongruent(p, RotR(t), t);
    RepresentsSplit(p, RotR(t), B, root');
  }

  /** The subtree at p holds the root exactly when p is empty. */
  lemma RootOfView(p: Path, s: Tree, A: seq<Node>, root: int)
    requires Represents(Plug(p, s), A, root)
    ensures root == Id(s) <==> p.Top?
    ensures Id(s) != NIL ==> 0 <= Id(s) < |A|
  {
    ViewFacts(p, s, A, root);
    if p != Top {
      RootOfInPath(p, Id(s));
      assert root in PathIds(p);
    }
    if s.Branch? {
      assert s.id in Ids(s);
    }
  }

  /** The slot of the subtree's root and of the nearest frame of a view. */
  lemma ViewNodes(p: Path, s: Tree, A: seq<Node>, root: int)
    requires Represents(Plug(p, s), A, root) && s.Branch?
    ensures 0 <= s.id < |A| && A[s.id] == Node(s.key, s.color, Id(s.left), Id(s.right), Above(p, NIL))
    ensures p != Top ==> 0 <= p.id < |A| && A[p.id].color == p.color && A[p.id].key == p.key
    ensures p != Top ==> A[p.id].parent == Above(p.up, NIL)
    ensures s.left.Branch? ==> 0 <= s.left.id < |A|
    ensures s.right.Branch? ==> 0 <= s.right.id < |A|
  {
    ViewFacts(p, s, A, root);
  }

  /** The slots around a node at p: which child link of its parent holds it,
      and the colour of its sibling. */
  lemma SiblingFacts(p: Path, s: Tree, A: seq<Node>, root: int)
    requires Represents(Plug(p, s), A, root) && p != Top && (s.Branch? || p.sib.Branch?)
    ensures 0 <= p.id < |A|
    ensures A[p.id].left == Id(s) <==> p.InLeft?
    ensures A[p.id].right == Id(s) <==> p.InRight?
    ensures (if p.InLeft? then A[p.id].right else A[p.id].left) == Id(p.sib)
    ensures Id(p.sib) != NIL ==> 0 <= Id(p.sib) < |A|
    ensures IsRed(p.sib) <==> Id(p.sib) != NIL && A[Id(p.sib)].color == Red
  {
    ViewFacts(p, s, A, root);
    if s.Branch? {
      assert s.id in Ids(s);
    }
    PathSide(p, Id(s), NIL, A);
    if p.sib.Branch? {
      SibViewPlug(p, s, p.sib);
      ViewNodes(SibView(p, s), p.sib, A, root);
    }
  }

  /** The slots of the sibling w of the subtree at p and of w's children. */
  lemma NephewFacts(p: Path, s: Tree, A: seq<Node>, root: int)
    requires Represents(Plug(p, s), A, root) && p != Top && p.sib.Branch?
    ensures 0 <= p.sib.id < |A| && A[p.sib.id].color == p.sib.color
    ensures A[p.sib.id].left == Id(p.sib.left) && A[p.sib.id].right == Id(p.sib.right)
    ensures Id(p.sib.left) != NIL ==> 0 <= Id(p.sib.left) < |A|
    ensures Id(p.sib.right) != NIL ==> 0 <= Id(p.sib.right) < |A|
    ensures IsRed(p.sib.left) <==> Id(p.sib.left) != NIL && A[Id(p.sib.left)].color == Red
    ensures IsRed(p.sib.right) <==> Id(p.sib.right) != NIL && A[Id(p.sib.right)].color == Red
  {
    var w := p.sib;
    var v := SibView(p, s);
    SibViewPlug(p, s, w);
    ViewNodes(v, w, A, root);
    if w.left.Branch? {
      ViewNodes(InLeft(w.color, w.key, w.id, w.right, v), w.left, A, root);
    }
    if w.right.Branch? {
      ViewNodes(InRight(w.left, w.color, w.key, w.id, v), w.right, A, root);
    }
  }

  /** The slots a view names: the subtree's root (if any), whether it is the
      tree's root, and the nearest frame. */
  lemma ViewSlots(p: Path, s: Tree, A: seq<Node>, root: int)
    requires Represents(Plug(p, s), A, root)
    ensures Id(s) != NIL ==> 0 <= Id(s) < |A| && A[Id(s)].color == s.color
    ensures s.Branch? ==> 0 <= s.id < |A|
    ensures Id(s) == root <==> p.Top?
    ensures p != Top ==> 0 <= p.id < |A| && A[p.id].color == p.color &&
                         A[p.id].parent == Above(p.up, NIL)
  {
    RootOfView(p, s, A, root);
    ViewFacts(p, s, A, root);
    if s.Branch? {
      ViewNodes(p, s, A, root);
    }
  }

  /** The slot writes of transplant: the nearest frame of p links to V's root
      instead of u, and V's root links up to that frame. */
  lemma TransplantStored(p: Path, u: int, V: Tree, vpar: int, A: seq<Node>, B: seq<Node>, root: int, root': int)
    requires LinkedPath(p, u, NIL, A) && PathDistinct(p) && 0 <= u < |A| && u !in PathIds(p)
    requires root == RootOf(p, u)
    requires Linked(V, vpar, A) && Distinct(V) && Ids(V) !! PathIds(p)
    requires ChangedOnly(A, B, {Above(p, NIL), Id(V)})
    requires p != Top ==> 0 <= p.id < |A|
    requires p != Top ==> B[p.id] == (if p.InLeft? then A[p.id].(left := Id(V)) else A[p.id].(right := Id(V)))
    requires Id(V) != NIL ==> 0 <= Id(V) < |A| && B[Id(V)] == A[Id(V)].(parent := Above(p, NIL))
    requires root' == (if p.Top? then Id(V) else root)
    ensures LinkedPath(p, Id(V), NIL, B) && Linked(V, Above(p, NIL), B)
    ensures root' == RootOf(p, Id(V))
  {
    LinkedPathInRange(p, u, NIL, A);
    LinkedInRange(V, vpar, A);
    var S := {Above(p, NIL), Id(V)};
    LinkedReparent(V, vpar, Above(p, NIL), A, B, S);
    if p != Top {
      LinkedPathRelink(p, u, Id(V), NIL, A, B, S);
      RootOfInPath(p, u);
      RootOfInPath(p, Id(V));
    }
  }

  /** Appending a new red leaf under the last frame of p (or as the root)
      stores the tree with that leaf. */
  lemma AttachStored(p: Path, key: Rational, A: seq<Node>, A': seq<Node>, B: seq<Node>, root: int, root': int)
    requires Represents(Plug(p, Leaf), A, root)
    requires A' == A + [Node(key, Red, NIL, NIL, Above(p, NIL))]
    requires p.Top? ==> B == A' && root' == |A|
    requires p != Top ==> 0 <= p.id < |A|
    requires p != Top ==> root' == root
    requires p != Top ==> B == A'[p.id := if p.InLeft? then A'[p.id].(left := |A|) else A'[p.id].(right := |A|)]
    ensures Represents(Plug(p, Branch(Red, Leaf, key, |A|, Leaf)), B, root')
  {
    ViewFacts(p, Leaf, A, root);
    var z := |A|;
    var s := Branch(Red, Leaf, key, z, Leaf);
    LinkedPathAppend(p, NIL, NIL, A, A'[z]);
    if p != Top {
      assert ChangedOnly(A', B, {p.id});
      LinkedPathRelink(p, NIL, z, NIL, A', B, {p.id});
    }
    assert Linked(s, Above(p, NIL), B);
    assert z !in PathIds(p);
    RepresentsSplit(p, s, B, root');
  }

  /** The state in which node z, below the frames of p with left subtree L
      and colour c, can be replaced by its successor: the successor is the
      root of the stored tree V, which has no left child, and all indices
      are distinct as in the tree where V hangs right of z. */
  ghost predicate Replaceable(p: Path, z: int, L: Tree, c: Color, V: Tree, vpar: int, A: seq<Node>, root: int) {
    LinkedPath(p, z, NIL, A) && 0 <= z < |A| && A[z].parent == Above(p, NIL) &&
    A[z].left == Id(L) && A[z].color == c && root == RootOf(p, z) &&
    L.Branch? && Linked(L, z, A) && V.Branch? && V.left.Leaf? && Linked(V, vpar, A) &&
    Distinct(Plug(p, Branch(c, L, V.key, z, V)))
  }

  /** The slots around the successor Y of a node Z with two children: Y's
      own slot, whether Y hangs directly below Z, and Y's right child. */
  lemma SuccessorSlots(p: Path, Z: Tree, A: seq<Node>, root: int)
    requires Represents(Plug(p, Z), A, root) && Z.Branch? && Z.right.Branch?
    ensures
      var m := MinPath(Z.right, Top);
      var Y := MinNode(Z.right);
      var py := Concat(m, InRight(Z.left, Z.color, Z.key, Z.id, p));
      Represents(Plug(py, Y), A, root) &&
      0 <= Y.id < |A| && A[Y.id] == Node(Y.key, Y.color, NIL, Id(Y.right), Above(py, NIL)) &&
      (Above(py, NIL) == Z.id <==> m.Top?) && (!m.Top? ==> Above(py, NIL) == m.id) &&
      (m.Top? ==> Y == Z.right) &&
      (Id(Y.right) != NIL ==> 0 <= Id(Y.right) < |A| && A[Id(Y.right)].parent == Y.id && Id(Y.right) != Z.id)
  {
    var R := Z.right;
    var m := MinPath(R, Top);
    var Y := MinNode(R);
    var py := Concat(m, InRight(Z.left, Z.color, Z.key, Z.id, p));
    MinSplit(R);
    PlugConcat(m, InRight(Z.left, Z.color, Z.key, Z.id, p), Y);
    ViewFacts(p, Z, A, root);
    ViewNodes(py, Y, A, root);
    IdsPlug(m, Y);
    if !m.Top? {
      assert m.id in Ids(R);
    }
    if Y.right.Branch? {
      ViewNodes(InRight(Y.left, Y.color, Y.key, Y.id, py), Y.right, A, root);
      assert Y.right.id in Ids(R);
    }
  }

  /** When the successor is Z's right child, the tree is already in the
      state to replace Z by it. */
  lemma ReplaceableDirect(p: Path, Z: Tree, A: seq<Node>, root: int)
    requires Represents(Plug(p, Z), A, root) && Z.Branch? && Z.left.Branch?
    requires Z.right.Branch? && Z.right.left.Leaf?
    ensures Replaceable(p, Z.id, Z.left, Z.color, Z.right, Z.id, A, root)
  {
    ViewFacts(p, Z, A, root);
    ViewNodes(p, Z, A, root);
    DistinctPlug(p, Z);
    DistinctPlug(p, Branch(Z.color, Z.left, Z.right.key, Z.id, Z.right));
  }

  /** After the successor y was cut out of Z's right subtree R (leaving R'
      at Z's right), linking y above R' brings the tree in the state to
      replace Z by y. */
  lemma DetachStored(p: Path, Z: Tree, A: seq<Node>, B: seq<Node>, root: int)
    requires Z.Branch? && Z.left.Branch? && Z.right.Branch? && Z.right.left.Branch?
    requires
      var m := MinPath(Z.right, Top);
      var Y := MinNode(Z.right);
      var R' := Plug(m, Y.right);
      var V := Branch(Y.color, Leaf, Y.key, Y.id, R');
      !m.Top? && R'.Branch? && R'.id == Z.right.id &&
      Represents(Plug(p, Branch(Z.color, Z.left, Z.key, Z.id, R')), A, root) &&
      Distinct(Plug(p, Branch(Z.color, Z.left, V.key, Z.id, V))) &&
      0 <= Y.id < |A| && A[Y.id] == Node(Y.key, Y.color, NIL, Id(Y.right), m.id) &&
      0 <= R'.id < |A| && B == A[Y.id := A[Y.id].(right := R'.id)][R'.id := A[R'.id].(parent := Y.id)]
    ensures
      var m := MinPath(Z.right, Top);
      var Y := MinNode(Z.right);
      var V := Branch(Y.color, Leaf, Y.key, Y.id, Plug(m, Y.right));
      Replaceable(p, Z.id, Z.left, Z.color, V, m.id, B, root)
  {
    var m := MinPath(Z.right, Top);
    var Y := MinNode(Z.right);
    var R' := Plug(m, Y.right);
    var V := Branch(Y.color, Leaf, Y.key, Y.id, R');
    var W := Branch(Z.color, Z.left, Z.key, Z.id, R');
    ViewFacts(p, W, A, root);
    ViewNodes(p, W, A, root);
    RepresentsSplit(p, Branch(Z.color, Z.left, V.key, Z.id, V), B, root);
    var S := {Y.id, R'.id};
    assert ChangedOnly(A, B, S);
    LinkedReparent(R', Z.id, Y.id, A, B, S);
    LinkedFrame(Z.left, Z.id, A, B, S);
    LinkedPathFrame(p, Z.id, NIL, A, B, S);
    assert Linked(V, m.id, B);
  }

  /** Cutting the successor Y out of Z's right subtree R: once the parent
      of Y links to Y's right child X (and X back to it), the tree stored
      is the one with R' = R without Y at Z's right. */
  lemma CutTree(p: Path, Z: Tree, A: seq<Node>, A1: seq<Node>, root: int, root1: int)
    requires Z.Branch? && Z.left.Branch? && Z.right.Branch? && Z.right.left.Branch?
    requires Represents(Plug(p, Z), A, root)
    requires
      var m := MinPath(Z.right, Top);
      var Y := MinNode(Z.right);
      var py := Concat(m, InRight(Z.left, Z.color, Z.key, Z.id, p));
      LinkedPath(py, Id(Y.right), NIL, A1) && Linked(Y.right, Above(py, NIL), A1) &&
      root1 == RootOf(py, Id(Y.right))
    ensures
      var m := MinPath(Z.right, Top);
      var Y := MinNode(Z.right);
      var R' := Plug(m, Y.right);
      !m.Top? && R'.Branch? && R'.id == Z.right.id &&
      Represents(Plug(p, Branch(Z.color, Z.left, Z.key, Z.id, R')), A1, root1)
  {
    var R := Z.right;
    var m := MinPath(R, Top);
    var Y := MinNode(R);
    var X := Y.right;
    var o := InRight(Z.left, Z.color, Z.key, Z.id, p);
    var py := Concat(m, o);
    MinSplit(R);
    PlugConcat(m, o, Y);
    PlugConcat(m, o, X);
    ChildSplice(py, Y, X);
    RepresentsSplit(py, X, A1, root1);
  }

  /** The slots after the cut: Y's slot is unchanged, and Z's right link
      names the root of R'. */
  lemma CutStored(p: Path, Z: Tree, A: seq<Node>, A1: seq<Node>, root: int, root1: int)
    requires Z.Branch? && Z.left.Branch? && Z.right.Branch? && Z.right.left.Branch?
    requires Represents(Plug(p, Z), A, root)
    requires
      var m := MinPath(Z.right, Top);
      var Y := MinNode(Z.right);
      var py := Concat(m, InRight(Z.left, Z.color, Z.key, Z.id, p));
      !m.Top? && LinkedPath(py, Id(Y.right), NIL, A1) && Linked(Y.right, m.id, A1) &&
      root1 == RootOf(py, Id(Y.right)) && ChangedOnly(A, A1, {m.id, Id(Y.right)})
    ensures
      var m := MinPath(Z.right, Top);
      var Y := MinNode(Z.right);
      var R' := Plug(m, Y.right);
      R'.Branch? && R'.id == Z.right.id &&
      Represents(Plug(p, Branch(Z.color, Z.left, Z.key, Z.id, R')), A1, root1) &&
      0 <= Y.id < |A1| && A1[Y.id] == Node(Y.key, Y.color, NIL, Id(Y.right), m.id) &&
      0 <= Z.id < |A1| && A1[Z.id].right == R'.id && 0 <= R'.id < |A1| && R'.id != Y.id
  {
    var R := Z.right;
    var m := MinPath(R, Top);
    var Y := MinNode(R);
    var X := Y.right;
    var R' := Plug(m, X);
    CutTree(p, Z, A, A1, root, root1);
    SuccessorSlots(p, Z, A, root);
    ViewFacts(p, Z, A, root);
    MinSplit(R);
    IdsPlug(m, X);
    assert Y.id !in Ids(R') && m.id in Ids(R');
    if X.Branch? {
      assert X.id in Ids(R');
    }
    ViewNodes(p, Branch(Z.color, Z.left, Z.key, Z.id, R'), A1, root1);
  }
}
