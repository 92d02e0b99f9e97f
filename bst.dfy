/** libbst: an unbalanced binary search tree of user data under a user
    comparator. Nodes are heap objects linked by left/right references; each
    carries a ghost Tree value, the subtree it roots, so that the traversals
    and the insertion walk can be specified by functions on trees. */
module Bst {
  import opened Wrappers

  datatype Tree<K> = Empty | Branch(left: Tree<K>, data: K, right: Tree<K>)

  /** The user function table: datacmp, and whether free_data is non-NULL.
      print_data and free_data themselves are I/O; the traversals return the
      data they would be called on, in order. */
  datatype UserFunctions<!K> = UserFunctions(datacmp: (K, K) -> int, hasFreeData: bool)

  function Size<K>(t: Tree<K>): nat {
    match t
    case Empty => 0
    case Branch(l, _, r) => Size(l) + 1 + Size(r)
  }

  /** The data held in t, with multiplicity. */
  ghost function Contents<K>(t: Tree<K>): multiset<K> {
    match t
    case Empty => multiset{}
    case Branch(l, d, r) => Contents(l) + multiset{d} + Contents(r)
  }

  lemma {:induction false} ContentsSize<K>(t: Tree<K>)
    ensures |Contents(t)| == Size(t)
  {
    match t
    case Empty =>
    case Branch(l, _, r) =>
      ContentsSize(l);
      ContentsSize(r);
  }

  /** The search-tree invariant the insertion walk maintains: every datum d'
      in the left subtree of a node with datum d has cmp(d, d') <= 0, every
      one in the right subtree cmp(d, d') > 0. */
  ghost predicate Ordered<K>(t: Tree<K>, cmp: (K, K) -> int) {
    match t
    case Empty => true
    case Branch(l, d, r) =>
      && Ordered(l, cmp) && Ordered(r, cmp)
      && (forall y :: y in Contents(l) ==> cmp(d, y) <= 0)
      && (forall y :: y in Contents(r) ==> cmp(d, y) > 0)
  }

  /** The tree after bst_new_node: x becomes a new leaf at the end of the
      walk that goes left where cmp(current, x) <= 0 and right otherwise. */
  function Insert<K>(t: Tree<K>, x: K, cmp: (K, K) -> int): Tree<K> {
    match t
    case Empty => Branch(Empty, x, Empty)
    case Branch(l, d, rt) =>
      if cmp(d, x) <= 0 then Branch(Insert(l, x, cmp), d, rt)
      else Branch(l, d, Insert(rt, x, cmp))
  }

  /** Insertion adds exactly one datum, x, and one node. */
  lemma {:induction false} InsertContents<K>(t: Tree<K>, x: K, cmp: (K, K) -> int)
    ensures Contents(Insert(t, x, cmp)) == Contents(t) + multiset{x}
    ensures Size(Insert(t, x, cmp)) == Size(t) + 1
  {
    match t
    case Empty =>
    case Branch(l, d, r) =>
      if cmp(d, x) <= 0 {
        InsertContents(l, x, cmp);
      } else {
        InsertContents(r, x, cmp);
      }
  }

  /** Insertion keeps the tree ordered. */
  lemma {:induction false} InsertOrdered<K>(t: Tree<K>, x: K, cmp: (K, K) -> int)
    requires Ordered(t, cmp)
    ensures Ordered(Insert(t, x, cmp), cmp)
  {
    match t
    case Empty =>
    case Branch(l, d, r) =>
      if cmp(d, x) <= 0 {
        InsertOrdered(l, x, cmp);
        InsertContents(l, x, cmp);
        var l2 := Insert(l, x, cmp);
        forall y | y in Contents(l2) ensures cmp(d, y) <= 0 {
          if y != x {
            assert y in Contents(l);
          }
        }
        assert Insert(t, x, cmp) == Branch(l2, d, r);
      } else {
        InsertOrdered(r, x, cmp);
        InsertContents(r, x, cmp);
        var r2 := Insert(r, x, cmp);
        forall y | y in Contents(r2) ensures cmp(d, y) > 0 {
          if y != x {
            assert y in Contents(r);
          }
        }
        assert Insert(t, x, cmp) == Branch(l, d, r2);
      }
  }

  /** The order _recursive_print_inorder visits the data in: left, node, right.
      Every datum appears exactly once. */
  function InOrder<K>(t: Tree<K>): (s: seq<K>)
    ensures multiset(s) == Contents(t) && |s| == Size(t)
  {
    match t
    case Empty => []
    case Branch(l, d, r) => InOrder(l) + [d] + InOrder(r)
  }

  /** The order _delete_all_nodes_recursive frees the data in: left, right,
      node. Every datum appears exactly once. */
  function PostOrder<K>(t: Tree<K>): (s: seq<K>)
    ensures multiset(s) == Contents(t) && |s| == Size(t)
  {
    match t
    case Empty => []
    case Branch(l, d, r) => PostOrder(l) + PostOrder(r) + [d]
  }

  /** A comparator that behaves as libbst.h asks: "<= 0" is transitive, and
      a > 0 one way is <= 0 the other way. */
  ghost predicate Comparator<K(!new)>(cmp: (K, K) -> int) {
    && (forall a, b, c :: cmp(a, b) <= 0 && cmp(b, c) <= 0 ==> cmp(a, c) <= 0)
    && (forall a, b :: cmp(a, b) > 0 ==> cmp(b, a) <= 0)
  }

  /** s lists its data from greatest to least under cmp. */
  ghost predicate Descending<K>(s: seq<K>, cmp: (K, K) -> int) {
    forall i, j :: 0 <= i < j < |s| ==> cmp(s[j], s[i]) <= 0
  }

  /** Joining two descending runs around d, everything left of d at least d,
      everything right of it at most d, gives a descending sequence. */
  lemma DescendingJoin<K>(a: seq<K>, d: K, b: seq<K>, cmp: (K, K) -> int)
    requires Descending(a, cmp) && Descending(b, cmp)
    requires forall y :: y in a ==> cmp(d, y) <= 0
    requires forall z :: z in b ==> cmp(z, d) <= 0
    requires forall y, z :: y in a && z in b ==> cmp(z, y) <= 0
    ensures Descending(a + [d] + b, cmp)
  {
    var s := a + [d] + b;
    forall i, j | 0 <= i < j < |s| ensures cmp(s[j], s[i]) <= 0 {
      if j < |a| {
        assert s[i] == a[i] && s[j] == a[j];
      } else if i > |a| {
        assert s[i] == b[i - |a| - 1] && s[j] == b[j - |a| - 1];
      } else if i < |a| && j == |a| {
        assert s[i] == a[i];
      } else if i < |a| {
        assert s[i] == a[i] && s[j] == b[j - |a| - 1];
      } else {
        assert s[j] == b[j - |a| - 1];
      }
    }
  }

  /** Since data comparing >= the node go left, the in-order traversal of an
      ordered tree lists the data from greatest to least. */
  lemma {:induction false} InOrderDescending<K(!new)>(t: Tree<K>, cmp: (K, K) -> int)
    requires Comparator(cmp) && Ordered(t, cmp)
    ensures Descending(InOrder(t), cmp)
  {
    match t
    case Empty =>
    case Branch(l, d, r) =>
      InOrderDescending(l, cmp);
      InOrderDescending(r, cmp);
      var sl, sr := InOrder(l), InOrder(r);
      assert forall y :: y in sl ==> y in Contents(l);
      assert forall z :: z in sr ==> z in Contents(r);
      forall y, z | y in sl && z in sr ensures cmp(z, y) <= 0 {
        assert cmp(d, y) <= 0 && cmp(z, d) <= 0;
      }
      DescendingJoin(sl, d, sr, cmp);
  }

  /** struct bst_node; parent is never set or read by the library. */
  class BstNode<K> {
    var data: K
    var left: BstNode?<K>
    var right: BstNode?<K>
    ghost var tree: Tree<K>

    constructor (data: K)
      ensures this.data == data && left == null && right == null
      ensures tree == Branch(Empty, data, Empty)
    {
      this.data := data;
      left := null;
      right := null;
      tree := Branch(Empty, data, Empty);
    }
  }

  ghost function TreeOf<K>(n: BstNode?<K>): Tree<K>
    reads n
  {
    if n == null then Empty else n.tree
  }

  /** m's ghost tree is the tree its links describe. */
  ghost predicate NodeTreeOk<K>(m: BstNode<K>)
    reads m, m.left, m.right
  {
    m.tree == Branch(TreeOf(m.left), m.data, TreeOf(m.right))
  }

  /** struct bst: the root and the copied user function table. Repr is the
      set of nodes, parentOf the unique node (or null, for the root) whose
      link points at each. */
  class BstTree<K> {
    var root: BstNode?<K>
    const userFunctions: UserFunctions<K>
    ghost var Repr: set<BstNode<K>>
    ghost var parentOf: map<BstNode<K>, BstNode?<K>>

    /** m's links stay inside Repr and each child names m as its one parent. */
    ghost predicate NodeLinksOk(m: BstNode<K>)
      reads this, m
    {
      && (m.left != null ==> m.left in Repr && m.left in parentOf && parentOf[m.left] == m)
      && (m.right != null ==> m.right in Repr && m.right in parentOf && parentOf[m.right] == m)
      && (m.left != null ==> m.left != m.right)
    }

    ghost predicate Valid()
      reads this, Repr
    {
      && (root == null ==> Repr == {})
      && (root != null ==> root in Repr && root in parentOf && parentOf[root] == null)
      && (forall m :: m in Repr ==> m in parentOf)
      && (forall m {:trigger NodeLinksOk(m)} {:trigger NodeTreeOk(m)} :: m in Repr ==> NodeLinksOk(m) && NodeTreeOk(m))
      && Ordered(TreeOf(root), userFunctions.datacmp)
    }

    /** The tree the structure holds. */
    ghost function Tree(): Tree<K>
      reads this, root
    {
      TreeOf(root)
    }

    /** bst_new: an empty tree with its own copy of the user functions. */
    constructor (userFunctions: UserFunctions<K>)
      ensures Valid() && this.userFunctions == userFunctions
      ensures root == null && Tree() == Empty && Repr == {}
    {
      root := null;
      this.userFunctions := userFunctions;
      Repr := {};
      parentOf := map[];
    }

    /** bst_new_node: make a leaf holding x and link it at the first null
        child on the walk from the root. parent is the node whose link now
        points at the new node (null when it became the root). */
    method NewNode(x: K) returns (node: BstNode<K>, ghost parent: BstNode?<K>)
      requires Valid()
      modifies this, Repr
      ensures Valid()
      ensures fresh(node) && node.data == x && node.left == null && node.right == null
      ensures Repr == old(Repr) + {node}
      ensures Tree() == Insert(old(Tree()), x, userFunctions.datacmp)
      ensures old(root) == null ==> root == node && parent == null
      ensures old(root) != null ==> root == old(root) && parent in old(Repr)
      ensures old(root) != null ==>
        || (old(parent.left) == null && parent.left == node && parent.right == old(parent.right))
        || (old(parent.right) == null && parent.right == node && parent.left == old(parent.left))
      ensures forall m :: m in old(Repr) && m != parent ==> m.left == old(m.left) && m.right == old(m.right)
      ensures forall m :: m in old(Repr) ==> m.data == old(m.data)
    {
      node := new BstNode(x);
      if root == null {
        root := node;
        Repr := {node};
        parentOf := map[node := null];
        parent := null;
        assert NodeLinksOk(node) && NodeTreeOk(node);
        assert Valid();
        return;
      }
      ghost var t0 := Tree();
      parent := LinkLeaf(node);
      InsertOrdered(t0, x, userFunctions.datacmp);
      Adopt(node, parent);
    }

    /** The ghost bookkeeping after the link: node joins Repr with parent as
        its parent, and the structure is valid again. */
    ghost method Adopt(node: BstNode<K>, parent: BstNode<K>)
      requires parent in Repr && node !in Repr && node.left == null && node.right == null
      requires NodeTreeOk(node) && Ordered(TreeOf(root), userFunctions.datacmp)
      requires forall m {:trigger NodeTreeOk(m)} :: m in Repr ==> NodeTreeOk(m)
      requires root != null && root in Repr && root in parentOf && parentOf[root] == null
      requires forall m :: m in Repr ==> m in parentOf
      requires forall m {:trigger NodeLinksOk(m)} :: m in Repr && m != parent ==> NodeLinksOk(m)
      requires parent.left == node || parent.right == node
      requires parent.left == node ==>
        parent.right == null || (parent.right in Repr && parent.right in parentOf && parentOf[parent.right] == parent)
      requires parent.right == node ==>
        parent.left == null || (parent.left in Repr && parent.left in parentOf && parentOf[parent.left] == parent)
      modifies this
      ensures root == old(root) && Repr == old(Repr) + {node} && parentOf == old(parentOf)[node := parent]
      ensures root in parentOf && parentOf[root] == null
      ensures Valid()
    {
      Repr := Repr + {node};
      parentOf := parentOf[node := parent];
      forall m | m in Repr ensures NodeLinksOk(m) {
        if m != parent && m != node {
          assert old(NodeLinksOk(m));
        }
      }
    }

    /** The walk of bst_new_node below a non-null root: go left where
        datacmp(current, data) <= 0 and right otherwise, until the child
        to follow is null, and link node there. Only parent's link changes,
        and the ghost trees on the path are brought up to date. */
    method LinkLeaf(node: BstNode<K>) returns (ghost parent: BstNode<K>)
      requires Valid() && root != null && node !in Repr
      requires node.left == null && node.right == null && node.tree == Branch(Empty, node.data, Empty)
      modifies Repr
      ensures parent in Repr
      ensures || (old(parent.left) == null && parent.left == node && parent.right == old(parent.right))
              || (old(parent.right) == null && parent.right == node && parent.left == old(parent.left))
      ensures forall m :: m in Repr && m != parent ==> m.left == old(m.left) && m.right == old(m.right)
      ensures forall m :: m in Repr ==> m.data == old(m.data)
      ensures parent.left == node ==>
        parent.right == null || (parent.right in Repr && parent.right in parentOf && parentOf[parent.right] == parent)
      ensures parent.right == node ==>
        parent.left == null || (parent.left in Repr && parent.left in parentOf && parentOf[parent.left] == parent)
      ensures forall m {:trigger NodeLinksOk(m)} :: m in Repr && m != parent ==> NodeLinksOk(m)
      ensures forall m {:trigger NodeTreeOk(m)} :: m in Repr ==> NodeTreeOk(m)
      ensures root.tree == Insert(old(root.tree), node.data, userFunctions.datacmp)
    {
      var x := node.data;
      var cmp := userFunctions.datacmp;
      ghost var t0 := root.tree;
      var current: BstNode<K> := root;
      ghost var above: BstNode?<K> := null;
      while true
        invariant Walking(current, above, x, t0)
        invariant forall m :: m in Repr ==> m.left == old(m.left) && m.right == old(m.right) && m.data == old(m.data)
        decreases current.tree
      {
        AdvanceTree(current, above, x, t0);
        if cmp(current.data, x) <= 0 {
          if current.left == null {
            Attach(current, node, true);
            parent := current;
            break;
          }
          assert NodeLinksOk(current);
          above := current;
          current := current.left;
        } else {
          if current.right == null {
            Attach(current, node, false);
            parent := current;
            break;
          }
          assert NodeLinksOk(current);
          above := current;
          current := current.right;
        }
      }
    }

    /** The state of the walk at current, whose parent is above: the links are
        still those of a valid tree, every node but above agrees with its
        ghost tree, above's tree already accounts for x arriving in current's
        subtree, and the root's tree is t0 before the first step and its
        insertion result after it. */
    ghost predicate Walking(current: BstNode<K>, above: BstNode?<K>, x: K, t0: Tree<K>)
      reads this, Repr
    {
      && current in Repr && current in parentOf && parentOf[current] == above && current != above
      && root != null && root in Repr && root in parentOf && parentOf[root] == null
      && (forall m :: m in Repr ==> m in parentOf)
      && (forall m {:trigger NodeLinksOk(m)} {:trigger NodeTreeOk(m)} :: m in Repr ==>
            NodeLinksOk(m) && (m != above ==> NodeTreeOk(m)))
      && (above == null ==> current == root && root.tree == t0)
      && (above != null ==> above in Repr && NodeLinksOk(above) && root.tree == Insert(t0, x, userFunctions.datacmp))
      && (above != null ==> above.left == current || above.right == current)
      && (above != null && above.left == current ==>
            above.tree == Branch(Insert(current.tree, x, userFunctions.datacmp), above.data, TreeOf(above.right)))
      && (above != null && above.right == current ==>
            above.tree == Branch(TreeOf(above.left), above.data, Insert(current.tree, x, userFunctions.datacmp)))
    }

    /** The ghost half of one step of the walk: current's tree becomes its
        insertion result, which is what above was waiting for. */
    ghost method AdvanceTree(current: BstNode<K>, above: BstNode?<K>, x: K, t0: Tree<K>)
      requires Walking(current, above, x, t0)
      modifies current
      ensures current.left == old(current.left) && current.right == old(current.right)
      ensures current.data == old(current.data)
      ensures old(current.tree) == Branch(TreeOf(current.left), current.data, TreeOf(current.right))
      ensures current.tree == Insert(old(current.tree), x, userFunctions.datacmp)
      ensures root.tree == Insert(t0, x, userFunctions.datacmp)
      ensures forall m {:trigger NodeLinksOk(m)} {:trigger NodeTreeOk(m)} :: m in Repr ==>
        NodeLinksOk(m) && (m != current ==> NodeTreeOk(m))
    {
      assert NodeLinksOk(current) && NodeTreeOk(current);
      current.tree := Insert(current.tree, x, userFunctions.datacmp);
      forall m | m in Repr ensures NodeLinksOk(m) && (m != current ==> NodeTreeOk(m)) {
        assert old(NodeLinksOk(m));
      }
    }

    /** Link the leaf node as current's left (goLeft) or right child, where
        current's ghost tree already holds it. */
    method Attach(current: BstNode<K>, node: BstNode<K>, goLeft: bool)
      requires current in Repr && node !in Repr
      requires node.left == null && node.right == null
      requires forall m {:trigger NodeLinksOk(m)} {:trigger NodeTreeOk(m)} :: m in Repr ==>
        NodeLinksOk(m) && (m != current ==> NodeTreeOk(m))
      requires goLeft ==> (current.left == null &&
        current.tree == Branch(TreeOf(node), current.data, TreeOf(current.right)))
      requires !goLeft ==> (current.right == null &&
        current.tree == Branch(TreeOf(current.left), current.data, TreeOf(node)))
      modifies current
      ensures goLeft ==> current.left == node && current.right == old(current.right)
      ensures !goLeft ==> current.right == node && current.left == old(current.left)
      ensures current.data == old(current.data) && current.tree == old(current.tree)
      ensures current.left == node ==>
        current.right == null || (current.right in Repr && current.right in parentOf && parentOf[current.right] == current)
      ensures current.right == node ==>
        current.left == null || (current.left in Repr && current.left in parentOf && parentOf[current.left] == current)
      ensures forall m {:trigger NodeLinksOk(m)} :: m in Repr && m != current ==> NodeLinksOk(m)
      ensures forall m {:trigger NodeTreeOk(m)} :: m in Repr ==> NodeTreeOk(m)
    {
      assert NodeLinksOk(current);
      if goLeft {
        current.left := node;
      } else {
        current.right := node;
      }
      forall m | m in Repr ensures NodeTreeOk(m) && (m != current ==> NodeLinksOk(m)) {
        assert old(NodeLinksOk(m));
      }
    }

    /** _delete_all_nodes_recursive on the subtree at n: the data free_data
        is called on (none when free_data is NULL), children before parent. */
    method DeleteSubtree(n: BstNode?<K>) returns (freed: seq<K>)
      requires Valid() && (n == null || n in Repr)
      ensures freed == if userFunctions.hasFreeData then PostOrder(TreeOf(n)) else []
      decreases TreeOf(n)
    {
      if n == null {
        return [];
      }
      assert NodeLinksOk(n) && NodeTreeOk(n);
      var l := DeleteSubtree(n.left);
      var r := DeleteSubtree(n.right);
      freed := l + r;
      if userFunctions.hasFreeData {
        freed := freed + [n.data];
      }
    }

    /** bst_delete_all_nodes: free every node (and its data through
        free_data, when set) and leave the tree empty. */
    method DeleteAllNodes() returns (freed: seq<K>)
      requires Valid()
      modifies this
      ensures Valid() && root == null && Tree() == Empty && Repr == {}
      ensures freed == if userFunctions.hasFreeData then PostOrder(old(Tree())) else []
    {
      freed := DeleteSubtree(root);
      root := null;
      Repr := {};
      parentOf := map[];
    }

    /** bst_delete: bst_delete_all_nodes, after which the copy of the user
        functions and the handle itself are released. */
    method Delete() returns (freed: seq<K>)
      requires Valid()
      modifies this
      ensures root == null && Tree() == Empty && Repr == {}
      ensures freed == if userFunctions.hasFreeData then PostOrder(old(Tree())) else []
    {
      freed := DeleteAllNodes();
    }

    /** _recursive_print_inorder on the subtree at n: the data print_data is
        called on, in order. */
    method PrintSubtree(n: BstNode?<K>) returns (printed: seq<K>)
      requires Valid() && (n == null || n in Repr)
      ensures printed == InOrder(TreeOf(n))
      decreases TreeOf(n)
    {
      if n == null {
        return [];
      }
      assert NodeLinksOk(n) && NodeTreeOk(n);
      printed := PrintSubtree(n.left);
      printed := printed + [n.data];
      var r := PrintSubtree(n.right);
      printed := printed + r;
    }

    /** bst_print_nodes_inorder */
    method PrintNodesInorder() returns (printed: seq<K>)
      requires Valid()
      ensures printed == InOrder(Tree())
    {
      printed := PrintSubtree(root);
    }
  }
}
