/**
 * The AVLTree template of AvLTree.h, the copy that Song and Playlist use.
 *
 * The object owns a root pointer and a `size` counter.  Its recursive
 * helpers rewrite the links of the nodes they visit; here the subtree they
 * return is the value computed by the recursive functions of AvlTrees, and
 * the public methods store it back into `root`.
 */
module AvlHeader {

  import opened AvlTrees

  class AVLTree<T> {
    var root: Tree<T>
    var size: int
    const key: T -> int

    /** The invariants every public member keeps: an AVL tree whose counter is its size. */
    ghost predicate Valid()
      reads this
    {
      AvlTrees.Valid(root, key) && size == |Contents(root)|
    }

    /** The set of stored elements. */
    ghost function Elements(): set<T>
      reads this
    {
      Contents(root)
    }

    /** AVLTree(): an empty tree ordered by `key`. */
    constructor (key: T -> int)
      ensures Valid() && Elements() == {} && size == 0
      ensures this.key == key
    {
      root := Leaf;
      size := 0;
      this.key := key;
    }

    /**
     * insert: adds `x` exactly when no equivalent element is stored, and
     * then counts it; a duplicate leaves the tree and the counter as they were.
     */
    method Insert(x: T) returns (inserted: bool)
      requires Valid()
      modifies this
      ensures Valid()
      ensures inserted <==> !HasKey(old(Elements()), key(x), key)
      ensures Elements() == if inserted then old(Elements()) + {x} else old(Elements())
      ensures size == if inserted then old(size) + 1 else old(size)
      ensures !inserted ==> root == old(root)
    {
      var res := InsertHelper(root, x, key);
      if res.1 {
        assert x !in Contents(root);
      }
      root := res.0;
      inserted := res.1;
      if inserted {
        size := size + 1;
      }
    }

    /**
     * remove: takes out the stored element equivalent to `x`, if any, and
     * then uncounts it; an absent key changes nothing.
     */
    method Remove(x: T) returns (removed: bool)
      requires Valid()
      modifies this
      ensures Valid()
      ensures removed <==> HasKey(old(Elements()), key(x), key)
      ensures removed ==> Elements() == old(Elements()) - {old(Find(x)).value}
      ensures !removed ==> Elements() == old(Elements())
      ensures size == if removed then old(size) - 1 else old(size)
      ensures !removed ==> root == old(root)
    {
      RemoveValid(root, x, key);
      RemoveHelperSpec(root, x, key);
      var res := RemoveHelper(root, x, key);
      root := res.0;
      removed := res.1;
      if removed {
        size := size - 1;
      }
    }

    /**
     * findMin: walks left from a non-empty subtree to its least element.  The
     * call in removeHelper's two-child case is modelled by AvlTrees.Leftmost,
     * which the first ensures shows is what this loop computes.
     */
    method FindMin(node: Tree<T>) returns (m: T)
      requires node.Node?
      ensures m == Leftmost(node)
      ensures Ordered(node, key) ==> IsLeast(Contents(node), m, key)
    {
      var current := node;
      while current.left.Node?
        invariant current.Node? && Leftmost(current) == Leftmost(node)
        decreases current
      {
        current := current.left;
      }
      m := current.data;
      if Ordered(node, key) {
        LeftmostIsMin(node, key);
      }
    }

    /** find: the stored element equivalent to `x`, or nothing exactly when there is none. */
    function Find(x: T): (r: Option<T>)
      reads this
      requires Valid()
      ensures r.None? <==> !HasKey(Elements(), key(x), key)
      ensures r.Some? ==> r.value in Elements() && key(r.value) == key(x)
    {
      FindHelperSpec(root, x, key);
      FindHelper(root, x, key)
    }

    /** contains: `find(x) != nullptr`. */
    function Contains(x: T): (b: bool)
      reads this
      requires Valid()
      ensures b <==> HasKey(Elements(), key(x), key)
    {
      Find(x).Some?
    }

    /**
     * findClosest, with the search of AVLTree.cpp (see the as-written
     * FindClosestHelper below): the equivalent element when one is stored,
     * else the least element above `x`, else nothing.
     */
    function FindClosest(x: T): (r: Option<T>)
      reads this
      requires Valid()
      ensures r.None? <==> Below(Elements(), key(x), key)
      ensures r.Some? ==> IsCeiling(Elements(), x, r.value, key)
      ensures HasKey(Elements(), key(x), key) ==> r == Find(x)
    {
      FindClosestSpec(root, x, key);
      FindClosestExact(root, x, key);
      AvlTrees.FindClosest(root, x, key)
    }

    /** begin: the element of the leftmost node, the least element; nothing for an empty tree. */
    method Begin() returns (first: Option<T>)
      requires Valid()
      ensures first.None? <==> Elements() == {}
      ensures first.Some? ==> IsLeast(Elements(), first.value, key)
    {
      var leftmost := root;
      while leftmost.Node? && leftmost.left.Node?
        invariant leftmost.Node? ==> root.Node? && Leftmost(leftmost) == Leftmost(root)
        invariant leftmost.Leaf? ==> root.Leaf?
        decreases leftmost
      {
        leftmost := leftmost.left;
      }
      if leftmost.Node? {
        LeftmostIsMin(root, key);
        first := Some(leftmost.data);
      } else {
        first := None;
      }
    }

    /** isEmpty: `root == nullptr`, which is the same as holding nothing. */
    function IsEmpty(): (b: bool)
      reads this
      requires Valid()
      ensures b <==> Elements() == {}
      ensures b <==> size == 0
    {
      root.Leaf?
    }

    /** getSize: the counter, which is the number of nodes and of stored elements. */
    function GetSize(): (n: int)
      reads this
      requires Valid()
      ensures n == |Elements()|
      ensures n == NodeCount(root)
    {
      NodeCountIsSize(root, key);
      size
    }
  }

  /**
   * findClosestHelper as written in AvLTree.h: `closest` is overwritten by
   * every node on the search path, so the result is the equivalent element
   * or else the last node visited, whichever side of `x` it lies on.
   */
  function FindClosestHelper<T>(t: Tree<T>, x: T, closest: Option<T>, key: T -> int): (r: Option<T>)
    ensures t.Leaf? ==> r == closest
    ensures t.Node? ==> r.Some? && r.value in Contents(t)
  {
    match t
    case Leaf => closest
    case Node(l, d, rt, _) =>
      var c := Some(d);
      if key(x) < key(d) then FindClosestHelper(l, x, c, key)
      else if key(d) < key(x) then FindClosestHelper(rt, x, c, key)
      else Some(d)
  }

  /**
   * With the integers 10 and 20 stored (20 at the root), the as-written
   * search for 15 answers 10, which lies below 15, while the least stored
   * element at or above 15 is 20.
   */
  lemma FindClosestHelperMissesCeiling()
    ensures var t := Node(Node(Leaf, 10, Leaf, 1), 20, Leaf, 2);
            AvlTrees.Valid(t, IntKey) &&
            FindClosestHelper(t, 15, None, IntKey) == Some(10) &&
            !IsCeiling(Contents(t), 15, 10, IntKey) &&
            AvlTrees.FindClosest(t, 15, IntKey) == Some(20) &&
            IsCeiling(Contents(t), 15, 20, IntKey)
  {
    var t := Node(Node(Leaf, 10, Leaf, 1), 20, Leaf, 2);
    assert Contents(t) == {10, 20};
  }
}
