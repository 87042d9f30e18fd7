/**
 * The AVLTree template of AVLTree.cpp, the fuller copy: its recursive
 * insertRec and removeRec move the `size` counter themselves, at the point
 * where a node is created or deleted, and the public insert and remove
 * report success by comparing the counter before and after.  It adds the
 * closest-match search, an in-order traversal, deep copy, assignment and
 * clear.
 */
module AvlVariant {

  import opened AvlTrees

  class AVLTree<T> {
    var root: Tree<T>
    var size: int
    const key: T -> int

    /** The invariants every public member keeps: an AVL tree whose counter is its size. */
    ghost predicate Valid()
      reads this
    {
      AvlTrees.Valid(root, key) && size == |Contents(root)|
    }

    /** The set of stored elements. */
    ghost function Elements(): set<T>
      reads this
    {
      Contents(root)
    }

    /** AVLTree(): an empty tree ordered by `key`. */
    constructor (key: T -> int)
      ensures Valid() && Elements() == {} && size == 0
      ensures this.key == key
    {
      root := Leaf;
      size := 0;
      this.key := key;
    }

    /**
     * insertRec: returns the rebalanced subtree and counts the new node at
     * the empty position where it is created, and nowhere else.
     */
    method InsertRec(node: Tree<T>, x: T) returns (res: Tree<T>)
      requires AvlTrees.Valid(node, key)
      modifies this`size
      ensures res == InsertHelper(node, x, key).0
      ensures size == old(size) + (if InsertHelper(node, x, key).1 then 1 else 0)
      decreases node
    {
      match node
      case Leaf =>
        size := size + 1;
        res := Node(Leaf, x, Leaf, 1);
      case Node(l, d, r, h) =>
        if key(x) < key(d) {
          InsertLeftUnfold(node, x, key);
          var l' := InsertRec(l, x);
          res := RebalanceInsert(UpdateHeight(Node(l', d, r, h)), x, key);
        } else if key(d) < key(x) {
          InsertRightUnfold(node, x, key);
          var r' := InsertRec(r, x);
          res := RebalanceInsert(UpdateHeight(Node(l, d, r', h)), x, key);
        } else {
          res := node;
        }
    }

    /** insert: succeeds exactly when the counter grew, which is when no equivalent element was stored. */
    method Insert(x: T) returns (inserted: bool)
      requires Valid()
      modifies this
      ensures Valid()
      ensures inserted <==> !HasKey(old(Elements()), key(x), key)
      ensures Elements() == if inserted then old(Elements()) + {x} else old(Elements())
      ensures size == if inserted then old(size) + 1 else old(size)
      ensures !inserted ==> root == old(root)
    {
      var oldSize := size;
      ghost var res := InsertHelper(root, x, key);
      ghost var before := Contents(root);
      var newRoot := InsertRec(root, x);
      if res.1 {
        assert x !in before;
        assert |Contents(newRoot)| == |before| + 1;
      }
      root := newRoot;
      inserted := size > oldSize;
    }

    /** minValueNode: the leftmost node of a subtree, which holds its least element; nothing for an empty one. */
    method MinValueNode(node: Tree<T>) returns (m: Tree<T>)
      ensures node.Leaf? ==> m.Leaf?
      ensures node.Node? ==> m.Node? && m.left.Leaf? && m.data == Leftmost(node)
      ensures node.Node? && Ordered(node, key) ==> IsLeast(Contents(node), m.data, key)
    {
      var current := node;
      while current.Node? && current.left.Node?
        invariant current.Node? ==> node.Node? && Leftmost(current) == Leftmost(node)
        invariant current.Leaf? ==> node.Leaf?
        decreases current
      {
        current := current.left;
      }
      m := current;
      if node.Node? && Ordered(node, key) {
        LeftmostIsMin(node, key);
      }
    }

    /**
     * removeRec: returns the rebalanced subtree and uncounts a node where it
     * is deleted; for a node with two children that happens inside the
     * recursive removal of its successor.
     */
    method RemoveRec(node: Tree<T>, x: T) returns (res: Tree<T>)
      modifies this`size
      ensures res == RemoveHelper(node, x, key).0
      ensures size == old(size) - (if RemoveHelper(node, x, key).1 then 1 else 0)
      decreases node
    {
      match node
      case Leaf =>
        res := Leaf;
      case Node(l, d, r, h) =>
        var step: Tree<T>;
        if key(x) < key(d) {
          var l' := RemoveRec(l, x);
          step := Node(l', d, r, h);
        } else if key(d) < key(x) {
          var r' := RemoveRec(r, x);
          step := Node(l, d, r', h);
        } else if l.Leaf? || r.Leaf? {
          step := if l.Node? then l else r;
          size := size - 1;
        } else {
          var m := MinValueNode(r);
          var r' := RemoveRec(r, m.data);
          step := Node(l, m.data, r', h);
        }
        if step.Leaf? {
          res := Leaf;
        } else {
          res := RebalanceRemove(UpdateHeight(step));
        }
    }

    /** remove: succeeds exactly when the counter shrank, which is when an equivalent element was stored. */
    method Remove(x: T) returns (removed: bool)
      requires Valid()
      modifies this
      ensures Valid()
      ensures removed <==> HasKey(old(Elements()), key(x), key)
      ensures removed ==> Elements() == old(Elements()) - {old(Find(x)).value}
      ensures !removed ==> Elements() == old(Elements())
      ensures size == if removed then old(size) - 1 else old(size)
      ensures !removed ==> root == old(root)
    {
      var oldSize := size;
      RemoveValid(root, x, key);
      RemoveHelperSpec(root, x, key);
      root := RemoveRec(root, x);
      removed := size < oldSize;
    }

    /** contains: findRec finds a node. */
    function Contains(x: T): (b: bool)
      reads this
      requires Valid()
      ensures b <==> HasKey(Elements(), key(x), key)
    {
      Find(x).Some?
    }

    /** find: the stored element equivalent to `x`, or nothing exactly when there is none. */
    function Find(x: T): (r: Option<T>)
      reads this
      requires Valid()
      ensures r.None? <==> !HasKey(Elements(), key(x), key)
      ensures r.Some? ==> r.value in Elements() && key(r.value) == key(x)
    {
      FindHelperSpec(root, x, key);
      FindHelper(root, x, key)
    }

    /** findClosest: the equivalent element when one is stored, else the least element above `x`, else nothing. */
    function FindClosest(x: T): (r: Option<T>)
      reads this
      requires Valid()
      ensures r.None? <==> Below(Elements(), key(x), key)
      ensures r.Some? ==> IsCeiling(Elements(), x, r.value, key)
      ensures HasKey(Elements(), key(x), key) ==> r == Find(x)
    {
      FindClosestSpec(root, x, key);
      FindClosestExact(root, x, key);
      AvlTrees.FindClosest(root, x, key)
    }

    /** clear: the tree becomes empty. */
    method Clear()
      modifies this
      ensures Valid() && Elements() == {} && size == 0 && root == Leaf
    {
      root := Leaf;
      size := 0;
    }

    /** getSize: the counter, which is the number of nodes and of stored elements. */
    function GetSize(): (n: int)
      reads this
      requires Valid()
      ensures n == |Elements()|
      ensures n == NodeCount(root)
    {
      NodeCountIsSize(root, key);
      size
    }

    /** isEmpty: `size == 0`, which is the same as holding nothing. */
    function IsEmpty(): (b: bool)
      reads this
      requires Valid()
      ensures b <==> Elements() == {}
      ensures b <==> root == Leaf
    {
      size == 0
    }

    /** inOrderRec: the elements of a subtree in the order the callback receives them. */
    method InOrderRec(node: Tree<T>) returns (visited: seq<T>)
      ensures visited == AvlTrees.InOrder(node)
      decreases node
    {
      match node
      case Leaf =>
        visited := [];
      case Node(l, d, r, _) =>
        var left := InOrderRec(l);
        var right := InOrderRec(r);
        visited := left + [d] + right;
    }

    /**
     * inOrder: the callback receives every stored element once, in strictly
     * ascending order; `visited` is the sequence of its arguments.
     */
    method InOrder() returns (visited: seq<T>)
      requires Valid()
      ensures |visited| == size
      ensures forall i, j :: 0 <= i < j < |visited| ==> key(visited[i]) < key(visited[j])
      ensures forall i :: 0 <= i < |visited| ==> visited[i] in Elements()
      ensures forall z :: z in Elements() ==> z in visited
    {
      visited := InOrderRec(root);
      InOrderSorted(root, key);
      NodeCountIsSize(root, key);
      forall z | z in Elements()
        ensures z in visited
      {
        InOrderContents(root, z);
      }
      forall i | 0 <= i < |visited|
        ensures visited[i] in Elements()
      {
        InOrderContents(root, visited[i]);
      }
    }

    /** The copy constructor: same elements, shape, heights, counter and order as `other`. */
    constructor Copy(other: AVLTree<T>)
      requires other.Valid()
      ensures Valid()
      ensures root == other.root && size == other.size && key == other.key
    {
      key := other.key;
      root := CopyRec(other.root);
      size := other.size;
      CopyRecIsIdentity(other.root);
    }

    /** operator=: takes a copy of `other`; assigning a tree to itself changes nothing. */
    method Assign(other: AVLTree<T>)
      requires Valid() && other.Valid() && other.key == key
      modifies this
      ensures Valid()
      ensures root == old(other.root) && size == old(other.size)
      ensures other == this ==> root == old(root) && size == old(size)
    {
      if other != this {
        Clear();
        root := CopyRec(other.root);
        size := other.size;
        CopyRecIsIdentity(other.root);
      }
    }
  }
}
