/** binary_tree/bst.hpp: the earlier copy of the trees. Its BinarySearchTree
    inserts and deletes with the very code of bt.hpp, so those hooks are the
    ones of Bt, reached through a BinarySearchTree-kind Bt tree. Its search
    differs: it answers with the root or with one of the root's children.
    Its RBTree and AVLTree are stubs whose hooks reject everything. */
module Bst {
  import opened TreeNodes
  import opened Trees
  import opened Links
  import Bt

  datatype Kind = BinarySearchTree | RBTree | AVLTree

  /** What SearchRecursively of bst.hpp answers, as a subtree of t: t itself
      when its root holds k; otherwise the child on the side of k, provided
      the search below that child succeeds; Nil otherwise. */
  ghost function Probe(t: Tree, k: int): (r: Tree)
    ensures r.N? <==> Find(t, k).N?
    ensures r == Nil || r == t || r == t.left || r == t.right
    ensures r.N? && r.key == k ==> r == Find(t, k)
    ensures (t.N? && t.key == k) ==> r == Find(t, k)
    ensures (t.N? && k < t.key && t.left.N? && t.left.key == k) ==> r == Find(t, k)
    ensures (t.N? && t.key < k && t.right.N? && t.right.key == k) ==> r == Find(t, k)
  {
    match t
    case Nil => Nil
    case N(_, _, key, l, rt) =>
      if key == k then t
      else if key > k then (if l.N? && Find(l, k).N? then l else Nil)
      else if rt.N? && Find(rt, k).N? then rt else Nil
  }

  /** The search of bst.hpp returns a node that does not hold the key: in
      the chain 1, 2, 3 of right children, the search for 3 answers with
      the node holding 2, while the node holding 3 is the one present. */
  lemma SearchReturnsWrongNode(a: Node, b: Node, c: Node)
    ensures var t := N(a, Black, 1, Nil, N(b, Red, 2, Nil, N(c, Red, 3, Nil, Nil)));
      && Ordered(t) && 3 in Keys(t)
      && Probe(t, 3).N? && Probe(t, 3).node == b && Probe(t, 3).key == 2
      && Find(t, 3).node == c
  {
    var t := N(a, Black, 1, Nil, N(b, Red, 2, Nil, N(c, Red, 3, Nil, Nil)));
    assert Find(t.right, 3) == t.right.right;
  }

  class BinaryTreeBase {
    const kind: Kind
    /** The links and root_ of the tree, kept by a plain BST of Bt. */
    const impl: Bt.BinaryTreeBase

    ghost function Repr(): set<Node>
      reads this, impl
    {
      impl.Repr()
    }

    ghost function Tree(): Tree
      reads this, impl
    {
      impl.tree
    }

    /** A valid BST; the stubs never leave the empty tree. */
    ghost predicate Valid()
      reads this, impl, impl.Repr()
    {
      && impl.kind == Bt.BinarySearchTree && impl.Valid()
      && (kind != BinarySearchTree ==> impl.tree == Nil)
    }

    constructor (kind: Kind)
      ensures Valid() && this.kind == kind && Tree() == Nil
    {
      this.kind := kind;
      impl := new Bt.BinaryTreeBase(Bt.BinarySearchTree);
    }

    /** BinarySearchTree::SearchRecursively of bst.hpp for node the root of
        the subtree t hanging from up: non-null exactly when k is in t, but
        the root or a child of the root, as Probe says. */
    function SearchRecursively(node: Node?, k: int, ghost t: Tree, ghost up: Node?): (r: Node?)
      reads Nodes(t)
      requires Distinct(t) && Agree(Info(t, up)) && node == Root(t)
      ensures r == Root(Probe(t, k))
      ensures r != null ==> r == node || (node != null && (r == node.left || r == node.right))
      decreases t
    {
      RootNull(t);
      if node == null then null
      else
        assert FieldsOf(node) == Info(t, up)[node];
        AgreeChildren(t, up);
        RootNull(t.left);
        RootNull(t.right);
        if node.key == k then node
        else if node.key > k then
          (if node.left != null && SearchRecursively(node.left, k, t.left, t.node) != null then node.left else null)
        else
          (if node.right != null && SearchRecursively(node.right, k, t.right, t.node) != null then node.right else null)
    }

    /** BinaryTreeBase::Search of bst.hpp: non-null exactly when k is present
        in a BinarySearchTree, always null for the stubs. */
    function Search(k: int): (r: Node?)
      reads this, impl, impl.Repr()
      requires Valid()
      ensures r != null <==> kind == BinarySearchTree && k in Keys(Tree())
      ensures r != null ==> r in Repr()
    {
      if kind == BinarySearchTree then
        FindIffKey(impl.tree, k);
        SearchRecursively(impl.root, k, impl.tree, null)
      else null
    }

    /** BinaryTreeBase::Insert of bst.hpp. A BinarySearchTree attaches a
        fresh leaf holding k unless k is present; the stubs free the new
        node and return null, the tree staying empty. */
    method Insert(k: int) returns (r: Node?)
      requires Valid()
      modifies impl, impl.Repr()
      ensures Valid()
      ensures r == null <==> kind != BinarySearchTree || k in old(Keys(Tree()))
      ensures r == null ==> Tree() == old(Tree())
      ensures r != null ==> fresh(r) && Repr() == old(Repr()) + {r}
      ensures r != null ==> Keys(Tree()) == old(Keys(Tree())) + {k} && Tree() == InsertRec(old(Tree()), r, k)
      ensures r != null ==> r.key == k && Find(Tree(), k) == Leaf(r, k)
    {
      if kind == BinarySearchTree {
        r := impl.Insert(k);
      } else {
        var node := new Node(k);
        r := null;
      }
    }

    /** BinaryTreeBase::Delete of bst.hpp: in a BinarySearchTree, true and k
        removed when present, false and no change otherwise; the stubs
        return false. */
    method Delete(k: int) returns (ok: bool)
      requires Valid()
      modifies impl, impl.Repr()
      ensures Valid()
      ensures ok == (kind == BinarySearchTree && k in old(Keys(Tree())))
      ensures Tree() == DeleteKey(old(Tree()), k)
      ensures Keys(Tree()) == old(Keys(Tree())) - {k}
      ensures Repr() <= old(Repr())
    {
      if kind == BinarySearchTree {
        ok := impl.Delete(k);
      } else {
        ok := false;
      }
    }
  }
}
