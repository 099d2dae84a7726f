/** The abstract shape of the red-black tree: a ghost tree that records the
    colour, key and arena index of every node, a zipper path that records where
    in the tree the node under work sits, the in-order key sequence, and the
    red-black invariants. */
module RbShapes {
  import opened Rationals

  /** The "no node" index (the source's nullptr). */
  const NIL: int := -1

  datatype Color = Red | Black

  datatype Tree = Leaf | Branch(color: Color, left: Tree, key: Rational, id: int, right: Tree)

  /** Where a subtree hangs: each frame is a node above it together with that
      node's other child; the nearest frame comes first. */
  datatype Path =
    | Top
    | InLeft(color: Color, key: Rational, id: int, sib: Tree, up: Path)
    | InRight(sib: Tree, color: Color, key: Rational, id: int, up: Path)

  // ---------------------------------------------------------------------------
  // Trees

  function Id(t: Tree): int {
    if t.Leaf? then NIL else t.id
  }

  function Size(t: Tree): nat {
    match t
    case Leaf => 0
    case Branch(_, l, _, _, r) => Size(l) + 1 + Size(r)
  }

  /** The in-order sequence of keys. */
  function Keys(t: Tree): seq<Rational> {
    match t
    case Leaf => []
    case Branch(_, l, k, _, r) => Keys(l) + [k] + Keys(r)
  }

  function Ids(t: Tree): set<int> {
    match t
    case Leaf => {}
    case Branch(_, l, _, n, r) => Ids(l) + {n} + Ids(r)
  }

  /** No arena index occurs twice in the tree. */
  predicate Distinct(t: Tree) {
    match t
    case Leaf => true
    case Branch(_, l, _, n, r) =>
      Distinct(l) && Distinct(r) && n !in Ids(l) && n !in Ids(r) && Ids(l) !! Ids(r)
  }

  predicate IsRed(t: Tree) {
    t.Branch? && t.color == Red
  }

  function Paint(t: Tree, c: Color): Tree {
    if t.Leaf? then t else t.(color := c)
  }

  function Blacken(t: Tree): Tree {
    Paint(t, Black)
  }

  function BlackCount(c: Color): nat {
    if c == Black then 1 else 0
  }

  /** Black nodes on the leftmost path; equal to the count on every path when
      the tree is Balanced. */
  function BH(t: Tree): nat {
    match t
    case Leaf => 0
    case Branch(c, l, _, _, _) => BH(l) + BlackCount(c)
  }

  /** Every path from a node down to an absent child has the same number of
      black nodes. */
  predicate Balanced(t: Tree) {
    match t
    case Leaf => true
    case Branch(_, l, _, _, r) => Balanced(l) && Balanced(r) && BH(l) == BH(r)
  }

  /** No red node has a red child. */
  predicate RedFree(t: Tree) {
    match t
    case Leaf => true
    case Branch(c, l, _, _, r) =>
      RedFree(l) && RedFree(r) && (c == Red ==> !IsRed(l) && !IsRed(r))
  }

  /** The red-black invariants of a whole tree: the root is black, no red node
      has a red child, and the black height is uniform. */
  predicate RedBlack(t: Tree) {
    Balanced(t) && RedFree(t) && !IsRed(t)
  }

  /** The key order extended to "not greater". */
  predicate Le(a: Rational, b: Rational) {
    !Less(b, a)
  }

  predicate Sorted(s: seq<Rational>) {
    forall i, j :: 0 <= i < j < |s| ==> Le(s[i], s[j])
  }

  function RotL(t: Tree): Tree
    requires t.Branch? && t.right.Branch?
  {
    Branch(t.right.color, Branch(t.color, t.left, t.key, t.id, t.right.left),
           t.right.key, t.right.id, t.right.right)
  }

  function RotR(t: Tree): Tree
    requires t.Branch? && t.left.Branch?
  {
    Branch(t.left.color, t.left.left, t.left.key, t.left.id,
           Branch(t.color, t.left.right, t.key, t.id, t.right))
  }

  /** Two subtrees that hold the same keys in the same order over the same
      arena indices, equally free of repeated indices. */
  predicate Congruent(a: Tree, b: Tree) {
    Keys(a) == Keys(b) && Ids(a) == Ids(b) && Size(a) == Size(b) && (Distinct(a) <==> Distinct(b))
  }

  lemma {:induction false} SizeIsLength(t: Tree)
    ensures |Keys(t)| == Size(t)
  {
    match t
    case Leaf =>
    case Branch(_, l, _, _, r) => SizeIsLength(l); SizeIsLength(r);
  }

  /** A left rotation keeps the in-order sequence and the node set. */
  lemma RotLCongruent(t: Tree)
    requires t.Branch? && t.right.Branch?
    ensures Congruent(RotL(t), t)
  {
    var y := t.right;
    assert Keys(RotL(t)) == Keys(t.left) + [t.key] + Keys(y.left) + [y.key] + Keys(y.right);
  }

  /** A right rotation keeps the in-order sequence and the node set. */
  lemma RotRCongruent(t: Tree)
    requires t.Branch? && t.left.Branch?
    ensures Congruent(RotR(t), t)
  {
    var y := t.left;
    assert Keys(RotR(t)) == Keys(y.left) + [y.key] + Keys(y.right) + [t.key] + Keys(t.right);
  }

  lemma PaintCongruent(t: Tree, c: Color)
    ensures Congruent(Paint(t, c), t)
  {
  }

  /** A node over congruent children is congruent, whatever the colours. */
  lemma BranchCongruent(c: Color, l: Tree, k: Rational, n: int, r: Tree, c': Color, l': Tree, r': Tree)
    requires Congruent(l, l') && Congruent(r, r')
    ensures Congruent(Branch(c, l, k, n, r), Branch(c', l', k, n, r'))
  {
  }

  // ---------------------------------------------------------------------------
  // Paths

  /** The tree rebuilt around s. */
  function Plug(p: Path, s: Tree): Tree {
    match p
    case Top => s
    case InLeft(c, k, q, sib, up) => Plug(up, Branch(c, s, k, q, sib))
    case InRight(sib, c, k, q, up) => Plug(up, Branch(c, sib, k, q, s))
  }

  /** s under the nearest frame of p. */
  function Lift(p: Path, s: Tree): Tree
    requires p != Top
  {
    match p
    case InLeft(c, k, q, sib, _) => Branch(c, s, k, q, sib)
    case InRight(sib, c, k, q, _) => Branch(c, sib, k, q, s)
  }

  /** p with the sibling of its nearest frame replaced by w. */
  function Resib(p: Path, w: Tree): Path
    requires p != Top
  {
    match p
    case InLeft(c, k, q, _, up) => InLeft(c, k, q, w, up)
    case InRight(_, c, k, q, up) => InRight(w, c, k, q, up)
  }

  /** Plugging into a non-empty path is plugging one frame up. */
  lemma PlugLift(p: Path, s: Tree)
    requires p != Top
    ensures Plug(p, s) == Plug(p.up, Lift(p, s))
  {
  }

  /** A tree around a node is a node. */
  lemma {:induction false} PlugBranch(p: Path, s: Tree)
    requires s.Branch?
    ensures Plug(p, s).Branch?
  {
    if !p.Top? {
      PlugBranch(p.up, Lift(p, s));
    }
  }

  /** The path to the sibling of the subtree at p, when that subtree is t. */
  function SibView(p: Path, t: Tree): Path
    requires p != Top
  {
    match p
    case InLeft(c, k, q, _, up) => InRight(t, c, k, q, up)
    case InRight(_, c, k, q, up) => InLeft(c, k, q, t, up)
  }

  /** Seen from the sibling: the same tree, and replacing the sibling there
      is replacing it in the nearest frame of p. */
  lemma SibViewPlug(p: Path, t: Tree, u: Tree)
    requires p != Top
    ensures Plug(SibView(p, t), p.sib) == Plug(p, t)
    ensures Plug(SibView(p, t), u) == Plug(p.up, Lift(Resib(p, u), t))
    ensures Above(SibView(p, t), NIL) == p.id
  {
  }

  function Depth(p: Path): nat {
    if p.Top? then 0 else 1 + Depth(p.up)
  }

  /** The parent index of the subtree at p; top when p is Top. */
  function Above(p: Path, top: int): int {
    if p.Top? then top else p.id
  }

  /** The index at the root of Plug(p, s) when s has root index below. */
  function RootOf(p: Path, below: int): int {
    if p.Top? then below else RootOf(p.up, p.id)
  }

  /** p with its outermost Top replaced by outer. */
  function Concat(p: Path, outer: Path): Path {
    match p
    case Top => outer
    case InLeft(c, k, q, sib, up) => InLeft(c, k, q, sib, Concat(up, outer))
    case InRight(sib, c, k, q, up) => InRight(sib, c, k, q, Concat(up, outer))
  }

  function PathIds(p: Path): set<int> {
    if p.Top? then {} else {p.id} + Ids(p.sib) + PathIds(p.up)
  }

  predicate PathDistinct(p: Path) {
    p.Top? ||
    (Distinct(p.sib) && p.id !in Ids(p.sib) && p.id !in PathIds(p.up) &&
     Ids(p.sib) !! PathIds(p.up) && PathDistinct(p.up))
  }

  /** Number of nodes a path adds around its subtree. */
  function PathSize(p: Path): nat {
    if p.Top? then 0 else Size(p.sib) + 1 + PathSize(p.up)
  }

  /** Keys that come before the subtree in the in-order sequence. */
  function Before(p: Path): seq<Rational> {
    match p
    case Top => []
    case InLeft(_, _, _, _, up) => Before(up)
    case InRight(sib, _, k, _, up) => Before(up) + Keys(sib) + [k]
  }

  /** Keys that come after the subtree in the in-order sequence. */
  function After(p: Path): seq<Rational> {
    match p
    case Top => []
    case InLeft(_, k, _, sib, up) => [k] + Keys(sib) + After(up)
    case InRight(_, _, _, _, up) => After(up)
  }

  /** Every frame is a left frame: the subtree is the leftmost part of the tree. */
  predicate AllLeft(p: Path) {
    p.Top? || (p.InLeft? && AllLeft(p.up))
  }

  /** A subtree of black height h at p makes every level of the tree balanced. */
  predicate PathBalanced(p: Path, h: nat) {
    p.Top? ||
    (Balanced(p.sib) && BH(p.sib) == h && PathBalanced(p.up, h + BlackCount(p.color)))
  }

  /** No red-red edge on the path, where childRed is whether the node just
      below the nearest frame is red. */
  predicate PathRedFree(p: Path, childRed: bool) {
    p.Top? ||
    (RedFree(p.sib) &&
     (p.color == Red ==> !childRed && !IsRed(p.sib)) &&
     PathRedFree(p.up, p.color == Red))
  }

  /** The outermost frame of a non-empty path is black. */
  predicate PathRootBlack(p: Path) {
    p.Top? || (if p.up.Top? then p.color == Black else PathRootBlack(p.up))
  }

  // ---------------------------------------------------------------------------
  // Plug lemmas

  lemma {:induction false} KeysPlug(p: Path, s: Tree)
    ensures Keys(Plug(p, s)) == Before(p) + Keys(s) + After(p)
  {
    match p
    case Top =>
    case InLeft(c, k, q, sib, up) =>
      KeysPlug(up, Branch(c, s, k, q, sib));
    case InRight(sib, c, k, q, up) =>
      KeysPlug(up, Branch(c, sib, k, q, s));
  }

  lemma {:induction false} IdsPlug(p: Path, s: Tree)
    ensures Ids(Plug(p, s)) == PathIds(p) + Ids(s)
    ensures Size(Plug(p, s)) == PathSize(p) + Size(s)
    ensures Id(Plug(p, s)) == RootOf(p, Id(s))
  {
    match p
    case Top =>
    case InLeft(c, k, q, sib, up) =>
      IdsPlug(up, Branch(c, s, k, q, sib));
    case InRight(sib, c, k, q, up) =>
      IdsPlug(up, Branch(c, sib, k, q, s));
  }

  lemma {:induction false} DistinctPlug(p: Path, s: Tree)
    ensures Distinct(Plug(p, s)) <==> Distinct(s) && PathDistinct(p) && Ids(s) !! PathIds(p)
  {
    match p
    case Top =>
    case InLeft(c, k, q, sib, up) =>
      DistinctPlug(up, Branch(c, s, k, q, sib));
    case InRight(sib, c, k, q, up) =>
      DistinctPlug(up, Branch(c, sib, k, q, s));
  }

  lemma {:induction false} BalancedPlug(p: Path, s: Tree)
    ensures Balanced(Plug(p, s)) <==> Balanced(s) && PathBalanced(p, BH(s))
  {
    match p
    case Top =>
    case InLeft(c, k, q, sib, up) =>
      BalancedPlug(up, Branch(c, s, k, q, sib));
    case InRight(sib, c, k, q, up) =>
      BalancedPlug(up, Branch(c, sib, k, q, s));
  }

  lemma {:induction false} RedFreePlug(p: Path, s: Tree)
    ensures RedFree(Plug(p, s)) <==> RedFree(s) && PathRedFree(p, IsRed(s))
  {
    match p
    case Top =>
    case InLeft(c, k, q, sib, up) =>
      RedFreePlug(up, Branch(c, s, k, q, sib));
    case InRight(sib, c, k, q, up) =>
      RedFreePlug(up, Branch(c, sib, k, q, s));
  }

  lemma {:induction false} RootColorPlug(p: Path, s: Tree)
    requires p != Top
    ensures IsRed(Plug(p, s)) <==> !PathRootBlack(p)
  {
    if !p.up.Top? {
      RootColorPlug(p.up, Lift(p, s));
    }
  }

  /** Forgetting that the child is red weakens PathRedFree. */
  lemma PathRedFreeWeaken(p: Path)
    requires PathRedFree(p, true)
    ensures PathRedFree(p, false)
  {
  }

  /** Replacing the subtree by a congruent one leaves the keys, indices and
      distinctness of the whole tree unchanged. */
  lemma PlugCongruent(p: Path, a: Tree, b: Tree)
    requires Congruent(a, b)
    ensures Congruent(Plug(p, a), Plug(p, b))
  {
    KeysPlug(p, a); KeysPlug(p, b);
    IdsPlug(p, a); IdsPlug(p, b);
    DistinctPlug(p, a); DistinctPlug(p, b);
  }

  lemma {:induction false} PlugConcat(p: Path, outer: Path, s: Tree)
    ensures Plug(Concat(p, outer), s) == Plug(outer, Plug(p, s))
  {
    match p
    case Top =>
    case InLeft(c, k, q, sib, up) =>
      PlugConcat(up, outer, Branch(c, s, k, q, sib));
    case InRight(sib, c, k, q, up) =>
      PlugConcat(up, outer, Branch(c, sib, k, q, s));
  }

  /** Two paths with the same colours and siblings at every frame; keys and
      indices of the frames may differ. */
  predicate SameColors(p: Path, p': Path) {
    match p
    case Top => p'.Top?
    case InLeft(c, _, _, sib, up) => p'.InLeft? && p'.color == c && p'.sib == sib && SameColors(up, p'.up)
    case InRight(sib, c, _, _, up) => p'.InRight? && p'.color == c && p'.sib == sib && SameColors(up, p'.up)
  }

  lemma {:induction false} SameColorsInvariants(p: Path, p': Path, h: nat, childRed: bool)
    requires SameColors(p, p')
    ensures PathBalanced(p, h) <==> PathBalanced(p', h)
    ensures PathRedFree(p, childRed) <==> PathRedFree(p', childRed)
    ensures PathRootBlack(p) <==> PathRootBlack(p')
    ensures Depth(p) == Depth(p')
  {
    if !p.Top? {
      SameColorsInvariants(p.up, p'.up, h + BlackCount(p.color), p.color == Red);
    }
  }

  lemma {:induction false} SameColorsConcat(p: Path, o: Path, o': Path)
    requires SameColors(o, o')
    ensures SameColors(Concat(p, o), Concat(p, o'))
  {
    if !p.Top? {
      SameColorsConcat(p.up, o, o');
    }
  }

  /** The root slot of a tree with a non-empty path is one of the path's slots. */
  lemma {:induction false} RootOfInPath(p: Path, below: int)
    requires p != Top
    ensures RootOf(p, below) in PathIds(p)
    ensures RootOf(p, below) == RootOf(p, p.id)
  {
    if !p.up.Top? {
      RootOfInPath(p.up, p.id);
    }
  }

  // ---------------------------------------------------------------------------
  // Sorted key sequences

  /** The parts of a sorted sequence around one of its keys. */
  lemma SortedParts(a: seq<Rational>, k: Rational, b: seq<Rational>)
    requires Sorted(a + [k] + b)
    ensures Sorted(a) && Sorted(b) && Sorted(a + b)
    ensures forall e | e in a :: Le(e, k)
    ensures forall e | e in b :: Le(k, e)
  {
    var s := a + [k] + b;
    assert forall i | 0 <= i < |a| :: s[i] == a[i];
    assert forall i | 0 <= i < |b| :: s[|a| + 1 + i] == b[i];
    assert s[|a|] == k;
    forall e | e in a
      ensures Le(e, k)
    {
      var i :| 0 <= i < |a| && a[i] == e;
      assert s[i] == e;
    }
    forall e | e in b
      ensures Le(k, e)
    {
      var i :| 0 <= i < |b| && b[i] == e;
      assert s[|a| + 1 + i] == e;
    }
    var t := a + b;
    forall i, j | 0 <= i < j < |t|
      ensures Le(t[i], t[j])
    {
      var i' := if i < |a| then i else i + 1;
      var j' := if j < |a| then j else j + 1;
      assert t[i] == s[i'] && t[j] == s[j'];
    }
  }

  /** A key that no earlier key exceeds and that exceeds no later key can be
      put between two sorted parts. */
  lemma SortedJoin(a: seq<Rational>, k: Rational, b: seq<Rational>)
    requires Sorted(a + b)
    requires forall e | e in a :: Le(e, k)
    requires forall e | e in b :: Le(k, e)
    ensures Sorted(a + [k] + b)
  {
    var t := a + b;
    var s := a + [k] + b;
    forall i, j | 0 <= i < j < |s|
      ensures Le(s[i], s[j])
    {
      if i < |a| && j < |a| {
        assert s[i] == t[i] && s[j] == t[j];
      } else if i < |a| && j == |a| {
        assert s[i] == a[i];
      } else if i < |a| {
        assert s[i] == t[i] && s[j] == t[j - 1];
      } else if i == |a| {
        assert s[j] == b[j - |a| - 1];
      } else {
        assert s[i] == t[i - 1] && s[j] == t[j - 1];
      }
    }
  }

  /** A new leaf put in the empty slot that the search for key reached keeps
      the keys sorted and adds one occurrence of key. */
  lemma InsertPlace(p: Path, key: Rational, z: int)
    requires Sorted(Keys(Plug(p, Leaf)))
    requires forall e | e in Before(p) :: Le(e, key)
    requires forall e | e in After(p) :: Less(key, e)
    ensures Keys(Plug(p, Branch(Red, Leaf, key, z, Leaf))) == Before(p) + [key] + After(p)
    ensures Sorted(Keys(Plug(p, Branch(Red, Leaf, key, z, Leaf))))
    ensures multiset(Keys(Plug(p, Branch(Red, Leaf, key, z, Leaf))))
            == multiset(Keys(Plug(p, Leaf))) + multiset{key}
  {
    var a, b := Before(p), After(p);
    KeysAroundLeaf(p, key, z);
    assert Sorted(a + [key] + b) by {
      forall e | e in b
        ensures Le(key, e)
      {
        assert Less(key, e);
      }
      SortedJoin(a, key, b);
    }
  }

  /** The keys around an empty slot before and after a leaf is put there. */
  lemma KeysAroundLeaf(p: Path, key: Rational, z: int)
    ensures Keys(Plug(p, Leaf)) == Before(p) + After(p)
    ensures Keys(Plug(p, Branch(Red, Leaf, key, z, Leaf))) == Before(p) + [key] + After(p)
    ensures multiset(Keys(Plug(p, Branch(Red, Leaf, key, z, Leaf))))
            == multiset(Keys(Plug(p, Leaf))) + multiset{key}
  {
    var a, b := Before(p), After(p);
    KeysPlug(p, Leaf);
    KeysPlug(p, Branch(Red, Leaf, key, z, Leaf));
    assert Keys(Branch(Red, Leaf, key, z, Leaf)) == [key];
    assert a + [] + b == a + b;
    MultisetInsert(a, key, b);
  }

  /** One more occurrence of k. */
  lemma MultisetInsert(a: seq<Rational>, k: Rational, b: seq<Rational>)
    ensures multiset(a + [k] + b) == multiset(a + b) + multiset{k}
  {
    assert a + [k] + b == a + ([k] + b);
  }

  /** Dropping one key k from the middle of a sorted sequence leaves it
      sorted and removes one occurrence of k. */
  lemma DeleteKey(a: seq<Rational>, l: seq<Rational>, k: Rational, r: seq<Rational>, b: seq<Rational>)
    requires Sorted(a + (l + [k] + r) + b)
    ensures Sorted(a + l + r + b)
    ensures multiset(a + l + r + b) == multiset(a + (l + [k] + r) + b) - multiset{k}
  {
    assert a + (l + [k] + r) + b == (a + l) + [k] + (r + b);
    assert a + l + r + b == (a + l) + (r + b);
    SortedParts(a + l, k, r + b);
    MultisetInsert(a + l, k, r + b);
  }

  /** Searching a sorted subtree for a key smaller than the root's can skip
      the right subtree. */
  lemma SearchLeft(t: Tree, key: Rational)
    requires Sorted(Keys(t)) && t.Branch? && Less(key, t.key)
    ensures Sorted(Keys(t.left))
    ensures key in Keys(t) <==> key in Keys(t.left)
  {
    SortedParts(Keys(t.left), t.key, Keys(t.right));
  }

  /** Searching a sorted subtree for a key larger than the root's can skip
      the left subtree. */
  lemma SearchRight(t: Tree, key: Rational)
    requires Sorted(Keys(t)) && t.Branch? && Less(t.key, key)
    ensures Sorted(Keys(t.right))
    ensures key in Keys(t) <==> key in Keys(t.right)
  {
    SortedParts(Keys(t.left), t.key, Keys(t.right));
  }

  // ---------------------------------------------------------------------------
  // The leftmost node

  /** The node reached by following left links from the root of t. */
  function MinNode(t: Tree): (m: Tree)
    requires t.Branch?
    ensures m.Branch? && m.left.Leaf?
  {
    if t.left.Leaf? then t else MinNode(t.left)
  }

  /** The path from the root of t (under up) down to MinNode(t). */
  function MinPath(t: Tree, up: Path): Path
    requires t.Branch?
  {
    if t.left.Leaf? then up else MinPath(t.left, InLeft(t.color, t.key, t.id, t.right, up))
  }

  /** MinNode has no left child, holds the first key of t, and is reached by
      left steps only. */
  lemma {:induction false} MinSpine(t: Tree, up: Path)
    requires t.Branch?
    ensures MinNode(t).Branch? && MinNode(t).left.Leaf?
    ensures Plug(MinPath(t, up), MinNode(t)) == Plug(up, t)
    ensures AllLeft(up) ==> AllLeft(MinPath(t, up))
    ensures Keys(t)[0] == MinNode(t).key
    ensures MinNode(t).id in Ids(t)
    ensures Depth(MinPath(t, up)) >= Depth(up)
    ensures MinPath(t, up) == up <==> t.left.Leaf?
  {
    if !t.left.Leaf? {
      MinSpine(t.left, InLeft(t.color, t.key, t.id, t.right, up));
    }
  }

  /** t without its leftmost node Y: the path m down to Y with Y's right
      child in Y's place. */
  lemma MinSplit(t: Tree)
    requires t.Branch?
    ensures
      var m := MinPath(t, Top);
      var Y := MinNode(t);
      var t' := Plug(m, Y.right);
      Plug(m, Y) == t && (m.Top? <==> t.left.Leaf?) && (m.Top? ==> Y == t) &&
      (!m.Top? ==> m.InLeft? && Id(t') == t.id) &&
      Keys(t) == [Y.key] + Keys(t') &&
      (Distinct(t) ==> Distinct(t') && Y.id !in Ids(t') && Ids(t) == Ids(t') + {Y.id})
  {
    var m := MinPath(t, Top);
    var Y := MinNode(t);
    MinSpine(t, Top);
    MinSplitKeys(t);
    IdsPlug(m, Y);
    IdsPlug(m, Y.right);
    DistinctPlug(m, Y);
    DistinctPlug(m, Y.right);
    if !m.Top? {
      RootOfInPath(m, Id(Y.right));
      RootOfInPath(m, Y.id);
    }
  }

  /** The keys of t are its first key, Y's, followed by those of t without Y. */
  lemma MinSplitKeys(t: Tree)
    requires t.Branch?
    ensures Keys(t) == [MinNode(t).key] + Keys(Plug(MinPath(t, Top), MinNode(t).right))
  {
    var m := MinPath(t, Top);
    var Y := MinNode(t);
    MinSpine(t, Top);
    AllLeftBefore(m);
    KeysPlug(m, Y);
    KeysPlug(m, Y.right);
    assert Keys(Y) == [Y.key] + Keys(Y.right);
  }

  /** Below a path of left steps nothing comes before the subtree. */
  lemma {:induction false} AllLeftBefore(p: Path)
    requires AllLeft(p)
    ensures Before(p) == []
  {
    if !p.Top? {
      AllLeftBefore(p.up);
    }
  }

  /** A path has its own colours. */
  lemma {:induction false} SameColorsRefl(p: Path)
    ensures SameColors(p, p)
  {
    if !p.Top? {
      SameColorsRefl(p.up);
    }
  }

  /** Removing a node Z with at most one child c: the tree keeps every other
      key in order and stays free of repeated indices. */
  lemma ChildSplice(p: Path, Z: Tree, c: Tree)
    requires Z.Branch? && ((Z.left.Leaf? && c == Z.right) || (Z.right.Leaf? && c == Z.left))
    ensures Keys(Plug(p, c)) == Before(p) + Keys(Z.left) + Keys(Z.right) + After(p)
    ensures Distinct(Plug(p, Z)) ==> Distinct(Plug(p, c))
    ensures Ids(Plug(p, Z)) == Ids(Plug(p, c)) + {Z.id}
  {
    ChildSpliceKeys(p, Z, c);
    ChildSpliceIds(p, Z, c);
  }

  /** The key half of ChildSplice. */
  lemma ChildSpliceKeys(p: Path, Z: Tree, c: Tree)
    requires Z.Branch? && ((Z.left.Leaf? && c == Z.right) || (Z.right.Leaf? && c == Z.left))
    ensures Keys(Plug(p, c)) == Before(p) + Keys(Z.left) + Keys(Z.right) + After(p)
  {
    assert Keys(c) == Keys(Z.left) + Keys(Z.right);
    KeysPlug(p, c);
  }

  /** The index half of ChildSplice. */
  lemma ChildSpliceIds(p: Path, Z: Tree, c: Tree)
    requires Z.Branch? && ((Z.left.Leaf? && c == Z.right) || (Z.right.Leaf? && c == Z.left))
    ensures Distinct(Plug(p, Z)) ==> Distinct(Plug(p, c))
    ensures Ids(Plug(p, Z)) == Ids(Plug(p, c)) + {Z.id}
  {
    assert Ids(Z) == Ids(c) + {Z.id};
    IdsPlug(p, c);
    IdsPlug(p, Z);
    if Distinct(Plug(p, Z)) {
      DistinctPlug(p, Z);
      DistinctPlug(p, c);
    }
  }

  /** Deleting the node at p from a sorted tree drops one occurrence of its
      key and keeps the rest in order. */
  lemma DeleteAt(p: Path, t: Tree)
    requires t.Branch? && Sorted(Keys(Plug(p, t)))
    ensures Sorted(Before(p) + Keys(t.left) + Keys(t.right) + After(p))
    ensures multiset(Before(p) + Keys(t.left) + Keys(t.right) + After(p)) ==
            multiset(Keys(Plug(p, t))) - multiset{t.key}
  {
    KeysPlug(p, t);
    DeleteKey(Before(p), Keys(t.left), t.key, Keys(t.right), After(p));
  }
}
