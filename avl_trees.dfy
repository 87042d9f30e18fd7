/**
 * The AVL tree shared by the two copies of the generic ordered index
 * (AvLTree.h and AVLTree.cpp).  The algorithms of both copies are the same
 * recursive functions on owned subtrees; the copies differ only in how the
 * enclosing object keeps its `size` counter and in a few extra members,
 * which the modules AvlHeader and AvlVariant model.
 *
 * The comparator `comp(a, b)` of the template is modelled as
 * `key(a) < key(b)` for an integer key extracted from the element, so two
 * elements are equivalent under `comp` exactly when their keys are equal.
 */
module AvlTrees {

  datatype Option<T> = None | Some(value: T)

  /** A node owns its two subtrees and caches its height; an empty subtree is a Leaf. */
  datatype Tree<T> = Leaf | Node(left: Tree<T>, data: T, right: Tree<T>, height: nat)

  function Max(a: int, b: int): int { if a < b then b else a }

  /** The comparator std::less<int>: an int is its own key. */
  function IntKey(i: int): int { i }

  // ---------------------------------------------------------------------
  // Abstract views of a tree
  // ---------------------------------------------------------------------

  /** The set of stored elements. */
  ghost function Contents<T>(t: Tree<T>): set<T>
  {
    match t
    case Leaf => {}
    case Node(l, d, r, _) => Contents(l) + {d} + Contents(r)
  }

  /** The number of nodes reachable from `t`. */
  function NodeCount<T>(t: Tree<T>): nat
  {
    match t
    case Leaf => 0
    case Node(l, _, r, _) => NodeCount(l) + 1 + NodeCount(r)
  }

  ghost predicate Below<T>(s: set<T>, k: int, key: T -> int)
  {
    forall z :: z in s ==> key(z) < k
  }

  ghost predicate Above<T>(s: set<T>, k: int, key: T -> int)
  {
    forall z :: z in s ==> k < key(z)
  }

  /** `m` is in `s` and strictly below every other element of `s`. */
  ghost predicate IsLeast<T>(s: set<T>, m: T, key: T -> int)
  {
    m in s && forall y :: y in s && y != m ==> key(m) < key(y)
  }

  /** Some stored element is equivalent (has the same key) as an element with key `k`. */
  ghost predicate HasKey<T>(s: set<T>, k: int, key: T -> int)
  {
    exists z :: z in s && key(z) == k
  }

  // ---------------------------------------------------------------------
  // The invariants of a tree after every public operation
  // ---------------------------------------------------------------------

  /** BST order: left subtree strictly before the node, right subtree strictly after. */
  ghost predicate Ordered<T>(t: Tree<T>, key: T -> int)
  {
    match t
    case Leaf => true
    case Node(l, d, r, _) =>
      Ordered(l, key) && Ordered(r, key) &&
      Below(Contents(l), key(d), key) && Above(Contents(r), key(d), key)
  }

  /** Every cached height is one more than the larger cached height of the children. */
  ghost predicate HeightsOk<T>(t: Tree<T>)
  {
    match t
    case Leaf => true
    case Node(l, _, r, h) => HeightsOk(l) && HeightsOk(r) && h == 1 + Max(Height(l), Height(r))
  }

  /** Every balance factor is -1, 0 or 1. */
  ghost predicate Balanced<T>(t: Tree<T>)
  {
    match t
    case Leaf => true
    case Node(l, _, r, _) => Balanced(l) && Balanced(r) && -1 <= Height(l) - Height(r) <= 1
  }

  ghost predicate Valid<T>(t: Tree<T>, key: T -> int)
  {
    Ordered(t, key) && HeightsOk(t) && Balanced(t)
  }

  // ---------------------------------------------------------------------
  // Heights, balance factors and rotations
  // ---------------------------------------------------------------------

  /** getHeight / height: the cached height, 0 for an empty subtree. */
  function Height<T>(t: Tree<T>): nat
  {
    if t.Leaf? then 0 else t.height
  }

  /** getBalance / balanceFactor: left height minus right height, 0 for an empty subtree. */
  function BalanceFactor<T>(t: Tree<T>): int
  {
    if t.Leaf? then 0 else Height(t.left) - Height(t.right)
  }

  /** A node whose cached height is computed from its children. */
  function MkNode<T>(l: Tree<T>, d: T, r: Tree<T>): (t: Tree<T>)
    ensures Contents(t) == Contents(l) + {d} + Contents(r)
    ensures HeightsOk(t) <==> HeightsOk(l) && HeightsOk(r)
  {
    Node(l, d, r, 1 + Max(Height(l), Height(r)))
  }

  /** updateHeight: recompute the cached height of a node; an empty subtree is left alone. */
  function UpdateHeight<T>(t: Tree<T>): (u: Tree<T>)
    ensures t.Node? ==> u == MkNode(t.left, t.data, t.right)
    ensures t.Leaf? ==> u == Leaf
    ensures HeightsOk(t) ==> u == t
  {
    if t.Leaf? then t else t.(height := 1 + Max(Height(t.left), Height(t.right)))
  }

  /**
   * rotateRight(y): the left child x takes y's place, y becomes x's right
   * child and x's former right subtree becomes y's left subtree; y's height
   * is recomputed first, then x's.
   */
  function RotateRight<T>(y: Tree<T>): (x: Tree<T>)
    requires y.Node? && y.left.Node?
    ensures x == MkNode(y.left.left, y.left.data, MkNode(y.left.right, y.data, y.right))
    ensures InOrder(x) == InOrder(y)
    ensures Contents(x) == Contents(y)
  {
    var x0 := y.left;
    var y1 := UpdateHeight(y.(left := x0.right));
    UpdateHeight(x0.(right := y1))
  }

  /** rotateLeft(x): the mirror image of RotateRight. */
  function RotateLeft<T>(x: Tree<T>): (y: Tree<T>)
    requires x.Node? && x.right.Node?
    ensures y == MkNode(MkNode(x.left, x.data, x.right.left), x.right.data, x.right.right)
    ensures InOrder(y) == InOrder(x)
    ensures Contents(y) == Contents(x)
  {
    var y0 := x.right;
    var x1 := UpdateHeight(x.(right := y0.left));
    UpdateHeight(y0.(left := x1))
  }

  /**
   * The rebalancing step of insertion, applied to a node whose height was
   * just updated.  The four cases are chosen by the balance factor and by the
   * position of the inserted element relative to the child's element.
   * The requires clauses are the non-null children the double rotations
   * dereference.
   */
  function RebalanceInsert<T>(n: Tree<T>, x: T, key: T -> int): (res: Tree<T>)
    requires n.Node?
    requires BalanceFactor(n) > 1 && key(n.left.data) < key(x) ==> n.left.right.Node?
    requires BalanceFactor(n) < -1 && key(x) < key(n.right.data) ==> n.right.left.Node?
    ensures Contents(res) == Contents(n)
  {
    var balance := BalanceFactor(n);
    if balance > 1 && key(x) < key(n.left.data) then
      RotateRight(n)                                    // left-left
    else if balance < -1 && key(n.right.data) < key(x) then
      RotateLeft(n)                                     // right-right
    else if balance > 1 && key(n.left.data) < key(x) then
      RotateRight(n.(left := RotateLeft(n.left)))       // left-right
    else if balance < -1 && key(x) < key(n.right.data) then
      RotateLeft(n.(right := RotateRight(n.right)))     // right-left
    else
      n
  }

  /**
   * The rebalancing step of removal, applied to a node whose height was just
   * updated.  The four cases are chosen by the balance factor of the node and
   * of the heavier child.
   */
  function RebalanceRemove<T>(n: Tree<T>): (res: Tree<T>)
    requires n.Node?
    ensures Contents(res) == Contents(n)
    ensures InOrder(res) == InOrder(n)
  {
    var balance := BalanceFactor(n);
    if balance > 1 && BalanceFactor(n.left) >= 0 then
      RotateRight(n)                                    // left-left
    else if balance > 1 && BalanceFactor(n.left) < 0 then
      RotateRight(n.(left := RotateLeft(n.left)))       // left-right
    else if balance < -1 && BalanceFactor(n.right) <= 0 then
      RotateLeft(n)                                     // right-right
    else if balance < -1 && BalanceFactor(n.right) > 0 then
      RotateLeft(n.(right := RotateRight(n.right)))     // right-left
    else
      n
  }

  // ---------------------------------------------------------------------
  // Queries
  // ---------------------------------------------------------------------

  /** findHelper / findRec: the stored element equivalent to `x`, if any. */
  function FindHelper<T>(t: Tree<T>, x: T, key: T -> int): (r: Option<T>)
    ensures r.Some? ==> r.value in Contents(t) && key(r.value) == key(x)
  {
    match t
    case Leaf => None
    case Node(l, d, rt, _) =>
      if key(x) < key(d) then FindHelper(l, x, key)
      else if key(d) < key(x) then FindHelper(rt, x, key)
      else Some(d)
  }

  /** findMin / minValueNode / begin: the element of the leftmost node. */
  function Leftmost<T>(t: Tree<T>): (m: T)
    requires t.Node?
    ensures m in Contents(t)
  {
    if t.left.Leaf? then t.data else Leftmost(t.left)
  }

  /**
   * findClosestRec (AVLTree.cpp): descend towards `x`, remembering in
   * `closest` the smallest element seen so far that lies strictly above `x`;
   * an exact match is returned at once.
   */
  function FindClosestRec<T>(t: Tree<T>, x: T, closest: Option<T>, key: T -> int): Option<T>
  {
    match t
    case Leaf => closest
    case Node(l, d, r, _) =>
      if key(x) < key(d) then
        var c := if closest.None? || key(d) < key(closest.value) then Some(d) else closest;
        FindClosestRec(l, x, c, key)
      else if key(d) < key(x) then
        FindClosestRec(r, x, closest, key)
      else
        Some(d)
  }

  /** findClosest (AVLTree.cpp): the smallest stored element at or above `x`. */
  function FindClosest<T>(t: Tree<T>, x: T, key: T -> int): Option<T>
  {
    FindClosestRec(t, x, None, key)
  }

  /** inOrderRec: the elements in the order the callback is applied to them. */
  function InOrder<T>(t: Tree<T>): (s: seq<T>)
    ensures |s| == NodeCount(t)
  {
    match t
    case Leaf => []
    case Node(l, d, r, _) => InOrder(l) + [d] + InOrder(r)
  }

  /** copyRec: a node-by-node copy with the same elements, shape and cached heights. */
  function CopyRec<T>(t: Tree<T>): Tree<T>
  {
    match t
    case Leaf => Leaf
    case Node(l, d, r, h) => Node(CopyRec(l), d, CopyRec(r), h)
  }

  // ---------------------------------------------------------------------
  // Updates
  // ---------------------------------------------------------------------

  /** The growth of a subtree after an insertion is on the side the element went to. */
  ghost predicate GrewTowards<T>(t: Tree<T>, x: T, key: T -> int)
  {
    t.Node? &&
    (Height(t) == 1 ||
     (key(x) < key(t.data) && BalanceFactor(t) == 1) ||
     (key(t.data) < key(x) && BalanceFactor(t) == -1))
  }

  /**
   * insertHelper / insertRec: BST insertion followed by the rebalancing step
   * on the way back up; the flag tells whether a new node was created.
   */
  function InsertHelper<T>(t: Tree<T>, x: T, key: T -> int): (res: (Tree<T>, bool))
    requires Valid(t, key)
    ensures Valid(res.0, key)
    ensures res.1 <==> !HasKey(Contents(t), key(x), key)
    ensures Contents(res.0) == if res.1 then Contents(t) + {x} else Contents(t)
    ensures !res.1 ==> res.0 == t
    ensures Height(t) <= Height(res.0) <= Height(t) + 1
    ensures Height(res.0) == Height(t) + 1 ==> GrewTowards(res.0, x, key)
    decreases t
  {
    match t
    case Leaf => (Node(Leaf, x, Leaf, 1), true)
    case Node(l, d, r, h) =>
      if key(x) < key(d) then
        var sub := InsertHelper(l, x, key);
        InsertLeftStep(t, x, key, sub.0, sub.1);
        (RebalanceInsert(UpdateHeight(Node(sub.0, d, r, h)), x, key), sub.1)
      else if key(d) < key(x) then
        var sub := InsertHelper(r, x, key);
        InsertRightStep(t, x, key, sub.0, sub.1);
        (RebalanceInsert(UpdateHeight(Node(l, d, sub.0, h)), x, key), sub.1)
      else
        (t, false)
  }

  /**
   * removeHelper / removeRec: BST removal.  A node with at most one child is
   * replaced by that child; a node with two children takes the element of the
   * leftmost node of its right subtree, which is then removed from the right
   * subtree.  The rebalancing step runs on the way back up.
   */
  function RemoveHelper<T>(t: Tree<T>, x: T, key: T -> int): (res: (Tree<T>, bool))
  {
    match t
    case Leaf => (Leaf, false)
    case Node(l, d, r, h) =>
      var step :=
        if key(x) < key(d) then
          var sub := RemoveHelper(l, x, key);
          (Node(sub.0, d, r, h), sub.1)
        else if key(d) < key(x) then
          var sub := RemoveHelper(r, x, key);
          (Node(l, d, sub.0, h), sub.1)
        else if l.Leaf? || r.Leaf? then
          (if l.Node? then l else r, true)
        else
          var m := Leftmost(r);
          var sub := RemoveHelper(r, m, key);
          (Node(l, m, sub.0, h), sub.1);
      if step.0.Leaf? then (Leaf, step.1)
      else (RebalanceRemove(UpdateHeight(step.0)), step.1)
  }

  // ---------------------------------------------------------------------
  // Lemmas: joins and rotations
  // ---------------------------------------------------------------------

  /** Joining two valid subtrees of near-equal height around a separating element. */
  lemma JoinValid<T>(l: Tree<T>, d: T, r: Tree<T>, key: T -> int)
    requires Valid(l, key) && Valid(r, key)
    requires Below(Contents(l), key(d), key) && Above(Contents(r), key(d), key)
    requires -1 <= Height(l) - Height(r) <= 1
    ensures Valid(MkNode(l, d, r), key)
  {
  }

  lemma BelowMono<T>(s: set<T>, k1: int, k2: int, key: T -> int)
    requires Below(s, k1, key) && k1 <= k2
    ensures Below(s, k2, key)
  {
  }

  lemma AboveMono<T>(s: set<T>, k1: int, k2: int, key: T -> int)
    requires Above(s, k1, key) && k2 <= k1
    ensures Above(s, k2, key)
  {
  }

  /** A single right rotation of an ordered node whose grandchildren are valid and fit. */
  lemma RotateRightValid<T>(y: Tree<T>, key: T -> int)
    requires y.Node? && y.left.Node? && Ordered(y, key)
    requires Valid(y.left.left, key) && Valid(y.left.right, key) && Valid(y.right, key)
    requires -1 <= Height(y.left.right) - Height(y.right) <= 1
    requires -1 <= Height(y.left.left) - (1 + Max(Height(y.left.right), Height(y.right))) <= 1
    ensures Valid(RotateRight(y), key)
  {
    var a, e, b, d, c := y.left.left, y.left.data, y.left.right, y.data, y.right;
    assert key(e) < key(d);
    BelowMono(Contents(b), key(d), key(d), key);
    JoinValid(b, d, c, key);
    AboveMono(Contents(c), key(d), key(e), key);
    JoinValid(a, e, MkNode(b, d, c), key);
  }

  /** A single left rotation of an ordered node whose grandchildren are valid and fit. */
  lemma RotateLeftValid<T>(x: Tree<T>, key: T -> int)
    requires x.Node? && x.right.Node? && Ordered(x, key)
    requires Valid(x.left, key) && Valid(x.right.left, key) && Valid(x.right.right, key)
    requires -1 <= Height(x.left) - Height(x.right.left) <= 1
    requires -1 <= (1 + Max(Height(x.left), Height(x.right.left))) - Height(x.right.right) <= 1
    ensures Valid(RotateLeft(x), key)
  {
    var a, d, b, e, c := x.left, x.data, x.right.left, x.right.data, x.right.right;
    assert key(d) < key(e);
    JoinValid(a, d, b, key);
    BelowMono(Contents(a), key(d), key(e), key);
    JoinValid(MkNode(a, d, b), e, c, key);
  }

  /**
   * Three valid subtrees and two separators around a middle element make a
   * valid tree of the shape both double rotations produce.
   */
  lemma DoubleJoinValid<T>(a: Tree<T>, e: T, b1: Tree<T>, f: T, b2: Tree<T>, d: T, c: Tree<T>, key: T -> int)
    requires Valid(a, key) && Valid(b1, key) && Valid(b2, key) && Valid(c, key)
    requires key(e) < key(f) < key(d)
    requires Below(Contents(a), key(e), key) && Above(Contents(b1), key(e), key)
    requires Below(Contents(b1), key(f), key) && Above(Contents(b2), key(f), key)
    requires Below(Contents(b2), key(d), key) && Above(Contents(c), key(d), key)
    requires -1 <= Height(a) - Height(b1) <= 1 && -1 <= Height(b2) - Height(c) <= 1
    requires -1 <= Max(Height(a), Height(b1)) - Max(Height(b2), Height(c)) <= 1
    ensures Valid(MkNode(MkNode(a, e, b1), f, MkNode(b2, d, c)), key)
  {
    JoinValid(a, e, b1, key);
    BelowMono(Contents(a), key(e), key(f), key);
    JoinValid(b2, d, c, key);
    AboveMono(Contents(c), key(d), key(f), key);
    JoinValid(MkNode(a, e, b1), f, MkNode(b2, d, c), key);
  }

  /** The left-right double rotation: Node(Node(a, e, Node(b1, f, b2)), d, c) becomes Node(Node(a, e, b1), f, Node(b2, d, c)). */
  lemma RotateLeftRightShape<T>(n: Tree<T>)
    requires n.Node? && n.left.Node? && n.left.right.Node?
    ensures RotateRight(n.(left := RotateLeft(n.left))) ==
            MkNode(MkNode(n.left.left, n.left.data, n.left.right.left), n.left.right.data,
                   MkNode(n.left.right.right, n.data, n.right))
  {
  }

  /** The right-left double rotation: Node(a, d, Node(Node(b1, f, b2), e, c)) becomes Node(Node(a, d, b1), f, Node(b2, e, c)). */
  lemma RotateRightLeftShape<T>(n: Tree<T>)
    requires n.Node? && n.right.Node? && n.right.left.Node?
    ensures RotateLeft(n.(right := RotateRight(n.right))) ==
            MkNode(MkNode(n.left, n.data, n.right.left.left), n.right.left.data,
                   MkNode(n.right.left.right, n.right.data, n.right.right))
  {
  }

  /** What validity of a node says of its children, with every unfolding done. */
  lemma NodeParts<T>(t: Tree<T>, key: T -> int)
    requires t.Node? && Valid(t, key)
    ensures Valid(t.left, key) && Valid(t.right, key)
    ensures Below(Contents(t.left), key(t.data), key) && Above(Contents(t.right), key(t.data), key)
    ensures Contents(t) == Contents(t.left) + {t.data} + Contents(t.right)
    ensures Height(t) == 1 + Max(Height(t.left), Height(t.right))
    ensures -1 <= Height(t.left) - Height(t.right) <= 1
  {
  }

  /**
   * The heights in a double rotation: a child `hc` two higher than its
   * sibling `hs`, leaning towards its inner child `hb` (whose children are
   * `hb1` and `hb2`) and away from its outer child `ho`.
   */
  lemma DoubleHeights(hs: int, ho: int, hb: int, hb1: int, hb2: int, hc: int)
    requires hb == 1 + Max(hb1, hb2) && -1 <= hb1 - hb2 <= 1
    requires hc == 1 + Max(hb, ho) && -1 <= hb - ho <= 1 && ho < hb
    requires hc - hs == 2
    ensures hs == ho && Max(hb1, hb2) == ho && ho - 1 <= hb1 <= ho && ho - 1 <= hb2 <= ho
  {
  }

  /** A bound on a set is a bound on each of its subsets. */
  lemma BoundsSubset<T>(s: set<T>, u: set<T>, k: int, key: T -> int)
    requires u <= s
    ensures Below(s, k, key) ==> Below(u, k, key)
    ensures Above(s, k, key) ==> Above(u, k, key)
  {
  }

  /** Rebalancing a node whose left subtree is two higher and leans left or not at all. */
  lemma RebalanceLeftLeft<T>(n: Tree<T>, key: T -> int)
    requires n.Node? && n.height == 1 + Max(Height(n.left), Height(n.right))
    requires Ordered(n, key) && Valid(n.left, key) && Valid(n.right, key)
    requires BalanceFactor(n) == 2 && BalanceFactor(n.left) >= 0
    ensures Valid(RotateRight(n), key)
    ensures n.height - 1 <= Height(RotateRight(n)) <= n.height
    ensures BalanceFactor(n.left) != 0 ==> Height(RotateRight(n)) == n.height - 1
  {
    RotateRightValid(n, key);
  }

  /** Rebalancing a node whose left subtree is two higher and leans right. */
  lemma RebalanceLeftRight<T>(n: Tree<T>, key: T -> int)
    requires n.Node? && n.height == 1 + Max(Height(n.left), Height(n.right))
    requires Ordered(n, key) && Valid(n.left, key) && Valid(n.right, key)
    requires BalanceFactor(n) == 2 && BalanceFactor(n.left) < 0
    ensures n.left.right.Node?
    ensures Valid(RotateRight(n.(left := RotateLeft(n.left))), key)
    ensures Height(RotateRight(n.(left := RotateLeft(n.left)))) == n.height - 1
  {
    var l := n.left;
    NodeParts(l, key);
    var b := l.right;
    NodeParts(b, key);
    var a, e, b1, f, b2, d, c := l.left, l.data, b.left, b.data, b.right, n.data, n.right;
    RotateLeftRightShape(n);
    DoubleHeights(Height(c), Height(a), Height(b), Height(b1), Height(b2), Height(l));
    assert Below(Contents(l), key(d), key) && Above(Contents(c), key(d), key);
    assert key(e) < key(f) < key(d) by {
      assert f in Contents(b) && f in Contents(l);
    }
    BoundsSubset(Contents(b), Contents(b1), key(e), key);
    BoundsSubset(Contents(l), Contents(b2), key(d), key);
    DoubleJoinValid(a, e, b1, f, b2, d, c, key);
  }

  /** Rebalancing a node whose right subtree is two higher and leans right or not at all. */
  lemma RebalanceRightRight<T>(n: Tree<T>, key: T -> int)
    requires n.Node? && n.height == 1 + Max(Height(n.left), Height(n.right))
    requires Ordered(n, key) && Valid(n.left, key) && Valid(n.right, key)
    requires BalanceFactor(n) == -2 && BalanceFactor(n.right) <= 0
    ensures Valid(RotateLeft(n), key)
    ensures n.height - 1 <= Height(RotateLeft(n)) <= n.height
    ensures BalanceFactor(n.right) != 0 ==> Height(RotateLeft(n)) == n.height - 1
  {
    RotateLeftValid(n, key);
  }

  /** Rebalancing a node whose right subtree is two higher and leans left. */
  lemma RebalanceRightLeft<T>(n: Tree<T>, key: T -> int)
    requires n.Node? && n.height == 1 + Max(Height(n.left), Height(n.right))
    requires Ordered(n, key) && Valid(n.left, key) && Valid(n.right, key)
    requires BalanceFactor(n) == -2 && BalanceFactor(n.right) > 0
    ensures n.right.left.Node?
    ensures Valid(RotateLeft(n.(right := RotateRight(n.right))), key)
    ensures Height(RotateLeft(n.(right := RotateRight(n.right)))) == n.height - 1
  {
    var r := n.right;
    NodeParts(r, key);
    var b := r.left;
    NodeParts(b, key);
    var a, d, b1, f, b2, e, c := n.left, n.data, b.left, b.data, b.right, r.data, r.right;
    RotateRightLeftShape(n);
    DoubleHeights(Height(a), Height(c), Height(b), Height(b1), Height(b2), Height(r));
    assert Below(Contents(a), key(d), key) && Above(Contents(r), key(d), key);
    assert key(d) < key(f) < key(e) by {
      assert f in Contents(b) && f in Contents(r);
    }
    BoundsSubset(Contents(r), Contents(b1), key(d), key);
    BoundsSubset(Contents(b), Contents(b2), key(e), key);
    DoubleJoinValid(a, d, b1, f, b2, e, c, key);
  }

  /**
   * The removal rebalancing step restores every invariant of a node whose
   * children are valid and differ in height by at most two; it lowers the
   * height by at most one, and by exactly one when it rotates a child that
   * was not itself perfectly balanced.
   */
  lemma RebalanceValid<T>(n: Tree<T>, key: T -> int)
    requires n.Node? && n.height == 1 + Max(Height(n.left), Height(n.right))
    requires Ordered(n, key) && Valid(n.left, key) && Valid(n.right, key)
    requires -2 <= BalanceFactor(n) <= 2
    ensures Valid(RebalanceRemove(n), key)
    ensures n.height - 1 <= Height(RebalanceRemove(n)) <= n.height
    ensures -1 <= BalanceFactor(n) <= 1 ==> RebalanceRemove(n) == n
    ensures BalanceFactor(n) == 2 && BalanceFactor(n.left) != 0 ==> Height(RebalanceRemove(n)) == n.height - 1
    ensures BalanceFactor(n) == -2 && BalanceFactor(n.right) != 0 ==> Height(RebalanceRemove(n)) == n.height - 1
  {
    var balance := BalanceFactor(n);
    if balance == 2 {
      if BalanceFactor(n.left) >= 0 {
        RebalanceLeftLeft(n, key);
      } else {
        RebalanceLeftRight(n, key);
      }
    } else if balance == -2 {
      if BalanceFactor(n.right) <= 0 {
        RebalanceRightRight(n, key);
      } else {
        RebalanceRightLeft(n, key);
      }
    } else {
      assert RebalanceRemove(n) == n;
    }
  }

  // ---------------------------------------------------------------------
  // Lemmas: insertion
  // ---------------------------------------------------------------------

  /** Inserting into the left subtree keeps the node ordered and adds the element to its contents. */
  lemma InsertLeftContents<T>(t: Tree<T>, x: T, key: T -> int, l': Tree<T>, ins: bool)
    requires t.Node? && Ordered(t, key) && key(x) < key(t.data)
    requires Ordered(l', key)
    requires ins <==> !HasKey(Contents(t.left), key(x), key)
    requires Contents(l') == if ins then Contents(t.left) + {x} else Contents(t.left)
    ensures Ordered(MkNode(l', t.data, t.right), key)
    ensures ins <==> !HasKey(Contents(t), key(x), key)
    ensures Contents(MkNode(l', t.data, t.right)) == if ins then Contents(t) + {x} else Contents(t)
  {
    assert HasKey(Contents(t), key(x), key) <==> HasKey(Contents(t.left), key(x), key) by {
      if HasKey(Contents(t), key(x), key) {
        var z :| z in Contents(t) && key(z) == key(x);
        assert z in Contents(t.left);
      }
    }
  }

  /**
   * After an insertion into the left subtree the node leans at most two
   * levels left, and then towards the side the element went to, so the
   * insertion's four rotation cases pick the same rotation as the removal's.
   */
  lemma InsertLeftBalance<T>(t: Tree<T>, x: T, key: T -> int, l': Tree<T>, ins: bool)
    requires t.Node? && Valid(t, key) && key(x) < key(t.data)
    requires Valid(l', key)
    requires !ins ==> l' == t.left
    requires Height(t.left) <= Height(l') <= Height(t.left) + 1
    requires Height(l') == Height(t.left) + 1 ==> GrewTowards(l', x, key)
    ensures var n := MkNode(l', t.data, t.right);
      -1 <= BalanceFactor(n) <= 2 &&
      (BalanceFactor(n) > 1 && key(n.left.data) < key(x) ==> n.left.right.Node?) &&
      RebalanceInsert(n, x, key) == RebalanceRemove(n) &&
      (BalanceFactor(n) == 2 ==> BalanceFactor(n.left) != 0 && Height(n) == Height(t) + 1) &&
      (BalanceFactor(n) < 2 && Height(n) == Height(t) + 1 ==> GrewTowards(n, x, key))
  {
    var l, d, r := t.left, t.data, t.right;
    var n := MkNode(l', d, r);
    if BalanceFactor(n) == 2 {
      assert Height(l') == Height(l) + 1 && Height(l') >= 2;
      assert key(x) < key(l'.data) || key(l'.data) < key(x);
      assert BalanceFactor(l') != 0;
    } else {
      assert RebalanceInsert(n, x, key) == n;
      if Height(n) == Height(t) + 1 {
        assert Height(l') == Height(l) + 1;
      }
    }
  }

  /** One level of insertion into the left subtree: the rebalanced node keeps every invariant. */
  lemma InsertLeftStep<T>(t: Tree<T>, x: T, key: T -> int, l': Tree<T>, ins: bool)
    requires t.Node? && Valid(t, key) && key(x) < key(t.data)
    requires Valid(l', key)
    requires ins <==> !HasKey(Contents(t.left), key(x), key)
    requires Contents(l') == if ins then Contents(t.left) + {x} else Contents(t.left)
    requires !ins ==> l' == t.left
    requires Height(t.left) <= Height(l') <= Height(t.left) + 1
    requires Height(l') == Height(t.left) + 1 ==> GrewTowards(l', x, key)
    ensures var n := UpdateHeight(Node(l', t.data, t.right, t.height));
      n.Node? && BalanceFactor(n) >= -1 &&
      (BalanceFactor(n) > 1 && key(n.left.data) < key(x) ==> n.left.right.Node?)
    ensures var res := RebalanceInsert(UpdateHeight(Node(l', t.data, t.right, t.height)), x, key);
      Valid(res, key) &&
      (ins <==> !HasKey(Contents(t), key(x), key)) &&
      Contents(res) == (if ins then Contents(t) + {x} else Contents(t)) &&
      (!ins ==> res == t) &&
      Height(t) <= Height(res) <= Height(t) + 1 &&
      (Height(res) == Height(t) + 1 ==> GrewTowards(res, x, key))
  {
    var l, d, r := t.left, t.data, t.right;
    var n := MkNode(l', d, r);
    assert UpdateHeight(Node(l', d, r, t.height)) == n;
    InsertLeftContents(t, x, key, l', ins);
    InsertLeftBalance(t, x, key, l', ins);
    RebalanceValid(n, key);
    if !ins {
      assert n == t;
    }
  }

  /** Inserting into the right subtree keeps the node ordered and adds the element to its contents. */
  lemma InsertRightContents<T>(t: Tree<T>, x: T, key: T -> int, r': Tree<T>, ins: bool)
    requires t.Node? && Ordered(t, key) && key(t.data) < key(x)
    requires Ordered(r', key)
    requires ins <==> !HasKey(Contents(t.right), key(x), key)
    requires Contents(r') == if ins then Contents(t.right) + {x} else Contents(t.right)
    ensures Ordered(MkNode(t.left, t.data, r'), key)
    ensures ins <==> !HasKey(Contents(t), key(x), key)
    ensures Contents(MkNode(t.left, t.data, r')) == if ins then Contents(t) + {x} else Contents(t)
  {
    assert HasKey(Contents(t), key(x), key) <==> HasKey(Contents(t.right), key(x), key) by {
      if HasKey(Contents(t), key(x), key) {
        var z :| z in Contents(t) && key(z) == key(x);
        assert z in Contents(t.right);
      }
    }
  }

  /** After an insertion into the right subtree: the mirror image of InsertLeftBalance. */
  lemma InsertRightBalance<T>(t: Tree<T>, x: T, key: T -> int, r': Tree<T>, ins: bool)
    requires t.Node? && Valid(t, key) && key(t.data) < key(x)
    requires Valid(r', key)
    requires !ins ==> r' == t.right
    requires Height(t.right) <= Height(r') <= Height(t.right) + 1
    requires Height(r') == Height(t.right) + 1 ==> GrewTowards(r', x, key)
    ensures var n := MkNode(t.left, t.data, r');
      -2 <= BalanceFactor(n) <= 1 &&
      (BalanceFactor(n) < -1 && key(x) < key(n.right.data) ==> n.right.left.Node?) &&
      RebalanceInsert(n, x, key) == RebalanceRemove(n) &&
      (BalanceFactor(n) == -2 ==> BalanceFactor(n.right) != 0 && Height(n) == Height(t) + 1) &&
      (BalanceFactor(n) > -2 && Height(n) == Height(t) + 1 ==> GrewTowards(n, x, key))
  {
    var l, d, r := t.left, t.data, t.right;
    var n := MkNode(l, d, r');
    if BalanceFactor(n) == -2 {
      assert Height(r') == Height(r) + 1 && Height(r') >= 2;
      assert key(x) < key(r'.data) || key(r'.data) < key(x);
      assert BalanceFactor(r') != 0;
    } else {
      assert RebalanceInsert(n, x, key) == n;
      if Height(n) == Height(t) + 1 {
        assert Height(r') == Height(r) + 1;
      }
    }
  }

  /** One level of insertion into the right subtree: the mirror image of InsertLeftStep. */
  lemma InsertRightStep<T>(t: Tree<T>, x: T, key: T -> int, r': Tree<T>, ins: bool)
    requires t.Node? && Valid(t, key) && key(t.data) < key(x)
    requires Valid(r', key)
    requires ins <==> !HasKey(Contents(t.right), key(x), key)
    requires Contents(r') == if ins then Contents(t.right) + {x} else Contents(t.right)
    requires !ins ==> r' == t.right
    requires Height(t.right) <= Height(r') <= Height(t.right) + 1
    requires Height(r') == Height(t.right) + 1 ==> GrewTowards(r', x, key)
    ensures var n := UpdateHeight(Node(t.left, t.data, r', t.height));
      n.Node? && BalanceFactor(n) <= 1 &&
      (BalanceFactor(n) < -1 && key(x) < key(n.right.data) ==> n.right.left.Node?)
    ensures var res := RebalanceInsert(UpdateHeight(Node(t.left, t.data, r', t.height)), x, key);
      Valid(res, key) &&
      (ins <==> !HasKey(Contents(t), key(x), key)) &&
      Contents(res) == (if ins then Contents(t) + {x} else Contents(t)) &&
      (!ins ==> res == t) &&
      Height(t) <= Height(res) <= Height(t) + 1 &&
      (Height(res) == Height(t) + 1 ==> GrewTowards(res, x, key))
  {
    var l, d, r := t.left, t.data, t.right;
    var n := MkNode(l, d, r');
    assert UpdateHeight(Node(l, d, r', t.height)) == n;
    InsertRightContents(t, x, key, r', ins);
    InsertRightBalance(t, x, key, r', ins);
    RebalanceValid(n, key);
    if !ins {
      assert n == t;
    }
  }

  /** One level of InsertHelper going left, as the recursive method of AVLTree.cpp computes it. */
  lemma InsertLeftUnfold<T>(t: Tree<T>, x: T, key: T -> int)
    requires t.Node? && Valid(t, key) && key(x) < key(t.data)
    ensures Valid(t.left, key)
    ensures var sub := InsertHelper(t.left, x, key);
      var n := UpdateHeight(Node(sub.0, t.data, t.right, t.height));
      n.Node? && BalanceFactor(n) >= -1 &&
      (BalanceFactor(n) > 1 && key(n.left.data) < key(x) ==> n.left.right.Node?) &&
      InsertHelper(t, x, key) == (RebalanceInsert(n, x, key), sub.1)
  {
    var sub := InsertHelper(t.left, x, key);
    InsertLeftStep(t, x, key, sub.0, sub.1);
  }

  /** One level of InsertHelper going right: the mirror image of InsertLeftUnfold. */
  lemma InsertRightUnfold<T>(t: Tree<T>, x: T, key: T -> int)
    requires t.Node? && Valid(t, key) && key(t.data) < key(x)
    ensures Valid(t.right, key)
    ensures var sub := InsertHelper(t.right, x, key);
      var n := UpdateHeight(Node(t.left, t.data, sub.0, t.height));
      n.Node? && BalanceFactor(n) <= 1 &&
      (BalanceFactor(n) < -1 && key(x) < key(n.right.data) ==> n.right.left.Node?) &&
      InsertHelper(t, x, key) == (RebalanceInsert(n, x, key), sub.1)
  {
    var sub := InsertHelper(t.right, x, key);
    InsertRightStep(t, x, key, sub.0, sub.1);
  }

  // ---------------------------------------------------------------------
  // Lemmas: removal
  // ---------------------------------------------------------------------

  /**
   * One level of removal: the children of a node of height 1 + Max(hl0, hr0)
   * each lost at most one level; the rebalanced node is valid and at most one
   * level lower, and it is the node itself when neither child changed height.
   */
  lemma RemoveStep<T>(l: Tree<T>, d: T, r: Tree<T>, hl0: nat, hr0: nat, key: T -> int)
    requires Valid(l, key) && Valid(r, key)
    requires Below(Contents(l), key(d), key) && Above(Contents(r), key(d), key)
    requires -1 <= hl0 - hr0 <= 1
    requires hl0 - 1 <= Height(l) <= hl0 && hr0 - 1 <= Height(r) <= hr0
    ensures Valid(RebalanceRemove(MkNode(l, d, r)), key)
    ensures Max(hl0, hr0) <= Height(RebalanceRemove(MkNode(l, d, r))) <= 1 + Max(hl0, hr0)
    ensures Height(l) == hl0 && Height(r) == hr0 ==> RebalanceRemove(MkNode(l, d, r)) == MkNode(l, d, r)
  {
    RebalanceValid(MkNode(l, d, r), key);
  }

  /** The stored element equivalent to `x` is the only one, and it is found exactly when it exists. */
  lemma {:induction false} FindHelperSpec<T>(t: Tree<T>, x: T, key: T -> int)
    requires Ordered(t, key)
    ensures FindHelper(t, x, key).None? <==> !HasKey(Contents(t), key(x), key)
    ensures forall y :: y in Contents(t) && key(y) == key(x) ==> FindHelper(t, x, key) == Some(y)
  {
    match t
    case Leaf =>
    case Node(l, d, r, _) =>
      FindHelperSpec(l, x, key);
      FindHelperSpec(r, x, key);
  }

  /** The leftmost element is strictly below every other stored element. */
  lemma {:induction false} LeftmostIsMin<T>(t: Tree<T>, key: T -> int)
    requires t.Node? && Ordered(t, key)
    ensures IsLeast(Contents(t), Leftmost(t), key)
  {
    if t.left.Node? {
      LeftmostIsMin(t.left, key);
    }
  }

  /**
   * What removeHelper promises: every invariant is kept, the flag says whether
   * an equivalent element was stored, exactly that element goes, the tree is
   * untouched when there is none, and the height drops by at most one.
   */
  ghost predicate RemovePost<T>(t: Tree<T>, x: T, key: T -> int, res: (Tree<T>, bool))
  {
    Valid(res.0, key) &&
    res.1 == FindHelper(t, x, key).Some? &&
    Contents(res.0) == (if FindHelper(t, x, key).Some? then Contents(t) - {FindHelper(t, x, key).value} else Contents(t)) &&
    (!res.1 ==> res.0 == t) &&
    Height(t) - 1 <= Height(res.0) <= Height(t)
  }

  /** Removal from the left subtree, once the subtree has met RemovePost, meets it for the node. */
  lemma RemoveLeftJoin<T>(t: Tree<T>, x: T, key: T -> int, sub: (Tree<T>, bool))
    requires Valid(t, key) && t.Node? && key(x) < key(t.data)
    requires RemovePost(t.left, x, key, sub)
    ensures RemovePost(t, x, key, (RebalanceRemove(MkNode(sub.0, t.data, t.right)), sub.1))
  {
    var Node(l, d, r, h) := t;
    RemoveStep(sub.0, d, r, Height(l), Height(r), key);
    assert FindHelper(t, x, key) == FindHelper(l, x, key);
    if sub.1 {
      var y := FindHelper(l, x, key).value;
      assert y != d && y !in Contents(r);
    }
  }

  lemma RemoveLeftCase<T>(t: Tree<T>, x: T, key: T -> int)
    requires Valid(t, key) && t.Node? && key(x) < key(t.data)
    requires RemovePost(t.left, x, key, RemoveHelper(t.left, x, key))
    ensures RemovePost(t, x, key, RemoveHelper(t, x, key))
  {
    var Node(l, d, r, h) := t;
    var sub := RemoveHelper(l, x, key);
    assert RemoveHelper(t, x, key) == (RebalanceRemove(MkNode(sub.0, d, r)), sub.1) by {
      assert UpdateHeight(Node(sub.0, d, r, h)) == MkNode(sub.0, d, r);
    }
    RemoveLeftJoin(t, x, key, sub);
  }

  /** Removal from the right subtree: the mirror image of RemoveLeftJoin. */
  lemma RemoveRightJoin<T>(t: Tree<T>, x: T, key: T -> int, sub: (Tree<T>, bool))
    requires Valid(t, key) && t.Node? && key(t.data) < key(x)
    requires RemovePost(t.right, x, key, sub)
    ensures RemovePost(t, x, key, (RebalanceRemove(MkNode(t.left, t.data, sub.0)), sub.1))
  {
    var Node(l, d, r, h) := t;
    RemoveStep(l, d, sub.0, Height(l), Height(r), key);
    assert FindHelper(t, x, key) == FindHelper(r, x, key);
    if sub.1 {
      var y := FindHelper(r, x, key).value;
      assert y != d && y !in Contents(l);
    }
  }

  lemma RemoveRightCase<T>(t: Tree<T>, x: T, key: T -> int)
    requires Valid(t, key) && t.Node? && key(t.data) < key(x)
    requires RemovePost(t.right, x, key, RemoveHelper(t.right, x, key))
    ensures RemovePost(t, x, key, RemoveHelper(t, x, key))
  {
    var Node(l, d, r, h) := t;
    var sub := RemoveHelper(r, x, key);
    assert RemoveHelper(t, x, key) == (RebalanceRemove(MkNode(l, d, sub.0)), sub.1) by {
      assert UpdateHeight(Node(l, d, sub.0, h)) == MkNode(l, d, sub.0);
    }
    RemoveRightJoin(t, x, key, sub);
  }

  /** A node with at most one child, replaced by that child, meets RemovePost. */
  lemma RemoveOneChildJoin<T>(t: Tree<T>, x: T, key: T -> int)
    requires Valid(t, key) && t.Node? && key(t.data) == key(x) && (t.left.Leaf? || t.right.Leaf?)
    ensures RemovePost(t, x, key, (if t.left.Node? then t.left else t.right, true))
  {
    var Node(l, d, r, h) := t;
    var c := if l.Node? then l else r;
    assert FindHelper(t, x, key) == Some(d);
    assert d !in Contents(c);
    assert Contents(t) - {d} == Contents(c);
  }

  lemma RemoveOneChildCase<T>(t: Tree<T>, x: T, key: T -> int)
    requires Valid(t, key) && t.Node? && key(t.data) == key(x) && (t.left.Leaf? || t.right.Leaf?)
    ensures RemovePost(t, x, key, RemoveHelper(t, x, key))
  {
    var Node(l, d, r, h) := t;
    var c := if l.Node? then l else r;
    assert RemoveHelper(t, x, key) == (c, true) by {
      if c.Node? {
        assert UpdateHeight(c) == c;
        assert RebalanceRemove(c) == c;
      }
    }
    RemoveOneChildJoin(t, x, key);
  }

  /** A node with two children, taking the least element of its right subtree, meets RemovePost. */
  lemma RemoveTwoChildJoin<T>(t: Tree<T>, x: T, key: T -> int, sub: (Tree<T>, bool))
    requires Valid(t, key) && t.Node? && key(t.data) == key(x) && t.left.Node? && t.right.Node?
    requires RemovePost(t.right, Leftmost(t.right), key, sub)
    ensures RemovePost(t, x, key, (RebalanceRemove(MkNode(t.left, Leftmost(t.right), sub.0)), sub.1))
  {
    var Node(l, d, r, h) := t;
    var m := Leftmost(r);
    LeftmostIsMin(r, key);
    FindHelperSpec(r, m, key);
    assert sub.1 && Contents(sub.0) == Contents(r) - {m};
    assert key(d) < key(m);
    BelowMono(Contents(l), key(d), key(m), key);
    assert Above(Contents(sub.0), key(m), key);
    RemoveStep(l, m, sub.0, Height(l), Height(r), key);
    assert FindHelper(t, x, key) == Some(d);
    assert d !in Contents(r) && d !in Contents(l);
    assert Contents(t) - {d} == Contents(l) + {m} + Contents(sub.0);
  }

  lemma RemoveTwoChildCase<T>(t: Tree<T>, x: T, key: T -> int)
    requires Valid(t, key) && t.Node? && key(t.data) == key(x) && t.left.Node? && t.right.Node?
    requires RemovePost(t.right, Leftmost(t.right), key, RemoveHelper(t.right, Leftmost(t.right), key))
    ensures RemovePost(t, x, key, RemoveHelper(t, x, key))
  {
    var Node(l, d, r, h) := t;
    var m := Leftmost(r);
    var sub := RemoveHelper(r, m, key);
    assert RemoveHelper(t, x, key) == (RebalanceRemove(MkNode(l, m, sub.0)), sub.1) by {
      assert UpdateHeight(Node(l, m, sub.0, h)) == MkNode(l, m, sub.0);
    }
    RemoveTwoChildJoin(t, x, key, sub);
  }

  /** removeHelper meets RemovePost on every valid tree. */
  lemma {:induction false} RemoveValid<T>(t: Tree<T>, x: T, key: T -> int)
    requires Valid(t, key)
    ensures RemovePost(t, x, key, RemoveHelper(t, x, key))
    decreases t
  {
    match t
    case Leaf =>
    case Node(l, d, r, h) =>
      if key(x) < key(d) {
        RemoveValid(l, x, key);
        RemoveLeftCase(t, x, key);
      } else if key(d) < key(x) {
        RemoveValid(r, x, key);
        RemoveRightCase(t, x, key);
      } else if l.Leaf? || r.Leaf? {
        RemoveOneChildCase(t, x, key);
      } else {
        RemoveValid(r, Leftmost(r), key);
        RemoveTwoChildCase(t, x, key);
      }
  }

  /** removeHelper in terms of the stored set: every element equivalent to `x` goes, nothing else does. */
  lemma RemoveHelperSpec<T>(t: Tree<T>, x: T, key: T -> int)
    requires Valid(t, key)
    ensures Valid(RemoveHelper(t, x, key).0, key)
    ensures RemoveHelper(t, x, key).1 <==> HasKey(Contents(t), key(x), key)
    ensures Contents(RemoveHelper(t, x, key).0) == set y | y in Contents(t) && key(y) != key(x)
  {
    RemoveValid(t, x, key);
    FindHelperSpec(t, x, key);
  }

  /** Inserting an absent element and removing it again restores the stored set. */
  lemma InsertRemoveInverse<T>(t: Tree<T>, x: T, key: T -> int)
    requires Valid(t, key) && !HasKey(Contents(t), key(x), key)
    ensures InsertHelper(t, x, key).1
    ensures Contents(RemoveHelper(InsertHelper(t, x, key).0, x, key).0) == Contents(t)
  {
    var t' := InsertHelper(t, x, key).0;
    RemoveHelperSpec(t', x, key);
  }

  // ---------------------------------------------------------------------
  // Lemmas: closest match, traversal, size and copy
  // ---------------------------------------------------------------------

  ghost function OptionSet<T>(o: Option<T>): set<T>
  {
    if o.Some? then {o.value} else {}
  }

  /** `y` is the element of `s` with the smallest key at or above the key of `x`. */
  ghost predicate IsCeiling<T>(s: set<T>, x: T, y: T, key: T -> int)
  {
    y in s && key(x) <= key(y) && forall z :: z in s && key(x) <= key(z) ==> key(y) <= key(z)
  }

  /** findClosestRec returns the ceiling of the subtree together with the best candidate so far. */
  lemma {:induction false} FindClosestRecSpec<T>(t: Tree<T>, x: T, c: Option<T>, key: T -> int)
    requires Ordered(t, key)
    requires c.Some? ==> key(x) < key(c.value)
    ensures FindClosestRec(t, x, c, key).None? <==>
            c.None? && forall z :: z in Contents(t) ==> key(z) < key(x)
    ensures FindClosestRec(t, x, c, key).Some? ==>
            IsCeiling(Contents(t) + OptionSet(c), x, FindClosestRec(t, x, c, key).value, key)
    decreases t
  {
    match t
    case Leaf =>
    case Node(l, d, r, _) =>
      if key(x) < key(d) {
        var c' := if c.None? || key(d) < key(c.value) then Some(d) else c;
        FindClosestRecSpec(l, x, c', key);
        assert Contents(l) + OptionSet(c') <= Contents(t) + OptionSet(c);
      } else if key(d) < key(x) {
        FindClosestRecSpec(r, x, c, key);
      }
  }

  /**
   * findClosest returns the stored element with the smallest key at or above
   * that of `x`, or nothing when every stored element is below `x`.
   */
  lemma FindClosestSpec<T>(t: Tree<T>, x: T, key: T -> int)
    requires Ordered(t, key)
    ensures FindClosest(t, x, key).None? <==> forall z :: z in Contents(t) ==> key(z) < key(x)
    ensures FindClosest(t, x, key).Some? ==> IsCeiling(Contents(t), x, FindClosest(t, x, key).value, key)
  {
    FindClosestRecSpec(t, x, None, key);
    assert Contents(t) + OptionSet(None) == Contents(t);
  }

  /** When an equivalent element is stored, findClosest returns exactly what find returns. */
  lemma FindClosestExact<T>(t: Tree<T>, x: T, key: T -> int)
    requires Ordered(t, key)
    ensures HasKey(Contents(t), key(x), key) ==> FindClosest(t, x, key) == FindHelper(t, x, key)
  {
    if HasKey(Contents(t), key(x), key) {
      FindClosestSpec(t, x, key);
      FindHelperSpec(t, x, key);
      var z :| z in Contents(t) && key(z) == key(x);
      var y := FindClosest(t, x, key).value;
      assert key(y) == key(x);
    }
  }

  /** The traversal visits exactly the stored elements. */
  lemma {:induction false} InOrderContents<T>(t: Tree<T>, z: T)
    ensures z in InOrder(t) <==> z in Contents(t)
  {
    match t
    case Leaf =>
    case Node(l, d, r, _) =>
      InOrderContents(l, z);
      InOrderContents(r, z);
  }

  /** The traversal is strictly ascending in the comparator, so it visits no element twice. */
  lemma {:induction false} InOrderSorted<T>(t: Tree<T>, key: T -> int)
    requires Ordered(t, key)
    ensures forall i, j :: 0 <= i < j < |InOrder(t)| ==> key(InOrder(t)[i]) < key(InOrder(t)[j])
  {
    match t
    case Leaf =>
    case Node(l, d, r, _) =>
      InOrderSorted(l, key);
      InOrderSorted(r, key);
      var s, sl, sr := InOrder(t), InOrder(l), InOrder(r);
      assert s == sl + [d] + sr;
      assert Below(Contents(l), key(d), key) && Above(Contents(r), key(d), key);
      forall i, j | 0 <= i < j < |s|
        ensures key(s[i]) < key(s[j])
      {
        if j < |sl| {
          assert s[i] == sl[i] && s[j] == sl[j];
        } else if i > |sl| {
          assert s[i] == sr[i - |sl| - 1] && s[j] == sr[j - |sl| - 1];
        } else {
          if i < |sl| {
            assert s[i] == sl[i] && sl[i] in InOrder(l);
            InOrderContents(l, s[i]);
            assert key(s[i]) < key(d);
          } else {
            assert s[i] == d;
          }
          if j > |sl| {
            assert s[j] == sr[j - |sl| - 1] && sr[j - |sl| - 1] in InOrder(r);
            InOrderContents(r, s[j]);
            assert key(d) < key(s[j]);
          } else {
            assert s[j] == d;
          }
        }
      }
  }

  /** In an ordered tree the nodes hold distinct elements, so the node count is the size of the set. */
  lemma {:induction false} NodeCountIsSize<T>(t: Tree<T>, key: T -> int)
    requires Ordered(t, key)
    ensures NodeCount(t) == |Contents(t)|
  {
    match t
    case Leaf =>
    case Node(l, d, r, _) =>
      NodeCountIsSize(l, key);
      NodeCountIsSize(r, key);
      assert d !in Contents(l) && d !in Contents(r);
      assert Contents(l) * Contents(r) == {};
      assert |Contents(l) + Contents(r)| == |Contents(l)| + |Contents(r)|;
      assert Contents(t) == (Contents(l) + Contents(r)) + {d};
  }

  /** copyRec reproduces elements, shape and cached heights. */
  lemma {:induction false} CopyRecIsIdentity<T>(t: Tree<T>)
    ensures CopyRec(t) == t
  {
    match t
    case Leaf =>
    case Node(l, _, r, _) =>
      CopyRecIsIdentity(l);
      CopyRecIsIdentity(r);
  }

  /** In an ordered tree no two stored elements are equivalent. */
  lemma {:induction false} KeysUnique<T>(t: Tree<T>, a: T, b: T, key: T -> int)
    requires Ordered(t, key)
    requires a in Contents(t) && b in Contents(t) && key(a) == key(b)
    ensures a == b
  {
    match t
    case Leaf =>
    case Node(l, d, r, _) =>
      if a in Contents(l) && b in Contents(l) {
        KeysUnique(l, a, b, key);
      } else if a in Contents(r) && b in Contents(r) {
        KeysUnique(r, a, b, key);
      }
  }
}
