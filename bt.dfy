/** binary_tree/bt.hpp: BinaryTreeBase with its two overriding trees, the plain
    BinarySearchTree and the RBTree, as one class whose `kind` picks the
    override of the virtual hooks. Node links are updated in place; the ghost
    field `tree` is the value they represent. */
module Bt {
  import opened TreeNodes
  import opened Trees
  import opened Links
  import opened RedBlack

  datatype Kind = BinarySearchTree | RBTree

  class BinaryTreeBase {
    const kind: Kind
    var root: Node?
    ghost var tree: Tree

    /** The node objects the tree owns. */
    ghost function Repr(): set<Node>
      reads this
    {
      Nodes(tree)
    }

    /** The links starting at root form `tree`: every node of it holds its
        key, colour, child links and parent back-link, and no node occurs
        twice. */
    ghost predicate Wf()
      reads this, Repr()
    {
      && root == Root(tree) && Distinct(tree) && Agree(Info(tree, null))
    }

    /** Wf and BST order: what every public operation keeps. */
    ghost predicate Valid()
      reads this, Repr()
    {
      Wf() && Ordered(tree)
    }

    constructor (kind: Kind)
      ensures Valid() && this.kind == kind
      ensures tree == Nil
    {
      this.kind := kind;
      root := null;
      tree := Nil;
    }

    /** SetRed/SetBlack on x: the heap moves from assignment m to m', which
        differs from m only in x's colour. */
    method Recolor(x: Node, col: Color, ghost m: map<Node, Fields>, ghost m': map<Node, Fields>, ghost t': Tree)
      requires Agree(m) && x in m && m' == m[x := m[x].(color := col)]
      modifies this`tree, x`color
      ensures Agree(m') && tree == t'
    {
      tree := t';
      if col == Red {
        x.SetRed();
      } else {
        x.SetBlack();
      }
      forall n | n in m'
        ensures FieldsOf(n) == m'[n]
      {
        if n != x {
          assert old(FieldsOf(n)) == m[n];
        }
      }
    }

    /** SetRed/SetBlack on the node at the top of the subtree t in the hole
        of c: the represented tree gets that node recoloured. */
    method Paint(x: Node, col: Color, ghost c: Ctx, ghost t: Tree)
      requires Wf() && tree == Plug(c, t) && t.N? && t.node == x
      modifies this`tree, x`color
      ensures Wf() && tree == Plug(c, t.(color := col))
      ensures root == old(root) && Repr() == old(Repr())
    {
      PlugRecolor(c, t, col);
      Recolor(x, col, Info(tree, null), Info(Plug(c, t.(color := col)), null), Plug(c, t.(color := col)));
    }

    /** The pointer surgery of LeftRotate(P): P's right child V takes P's
        place under P's parent (or becomes root), P becomes V's left child and
        V's old left child R becomes P's right child. The heap moves from
        assignment m to m' as RotatedLeftAt describes. */
    method RelinkLeft(p: Node, ghost m: map<Node, Fields>, ghost m': map<Node, Fields>, ghost t': Tree)
      requires Agree(m) && RotatedLeftAt(m, m', p)
      modifies this`root, this`tree, p, p.right, p.right.left, p.parent
      ensures Agree(m') && tree == t'
      ensures root == if old(p.parent) == null then old(p.right) else old(root)
    {
      var v := p.right;
      var r := v.left;
      var parent := p.parent;
      p.right := r;
      if r != null {
        r.parent := p;
      }
      v.parent := parent;
      if parent == null {
        root := v;
      } else {
        if parent.left == p {
          parent.left := v;
        } else {
          parent.right := v;
        }
      }
      v.left := p;
      p.parent := v;
      tree := t';
      assert FieldsOf(p) == m'[p] && FieldsOf(v) == m'[v];
      assert r != null ==> FieldsOf(r) == m'[r];
      assert parent != null ==> FieldsOf(parent) == m'[parent];
      forall n | n in m'
        ensures FieldsOf(n) == m'[n]
      {
        if n != p && n != v && n != r && n != parent {
          assert old(FieldsOf(n)) == m[n];
        }
      }
    }

    /** LeftRotate(P) on the represented tree: the subtree at P is rotated in
        place and the rest of the tree stays as it was. */
    method LeftRotate(p: Node, ghost c: Ctx, ghost t: Tree)
      requires Wf() && tree == Plug(c, t) && t.N? && t.node == p && t.right.N?
      modifies this, Repr()
      ensures Wf() && tree == Plug(c, RotateLeft(t)) && Repr() == old(Repr())
    {
      PlugRotateLeft(c, t);
      ghost var m, m' := Info(tree, null), Info(Plug(c, RotateLeft(t)), null);
      assert FieldsOf(p) == m[p];
      RelinkLeft(p, m, m', Plug(c, RotateLeft(t)));
    }

    /** The pointer surgery of RightRotate(P), the mirror image of
        RelinkLeft. */
    method RelinkRight(p: Node, ghost m: map<Node, Fields>, ghost m': map<Node, Fields>, ghost t': Tree)
      requires Agree(m) && RotatedRightAt(m, m', p)
      modifies this`root, this`tree, p, p.left, p.left.right, p.parent
      ensures Agree(m') && tree == t'
      ensures root == if old(p.parent) == null then old(p.left) else old(root)
    {
      var v := p.left;
      var r := v.right;
      var parent := p.parent;
      p.left := r;
      if r != null {
        r.parent := p;
      }
      v.parent := parent;
      if parent == null {
        root := v;
      } else {
        if parent.left == p {
          parent.left := v;
        } else {
          parent.right := v;
        }
      }
      v.right := p;
      p.parent := v;
      tree := t';
      assert FieldsOf(p) == m'[p] && FieldsOf(v) == m'[v];
      assert r != null ==> FieldsOf(r) == m'[r];
      assert parent != null ==> FieldsOf(parent) == m'[parent];
      forall n | n in m'
        ensures FieldsOf(n) == m'[n]
      {
        if n != p && n != v && n != r && n != parent {
          assert old(FieldsOf(n)) == m[n];
        }
      }
    }

    /** RightRotate(P) on the represented tree: the mirror image of
        LeftRotate. */
    method RightRotate(p: Node, ghost c: Ctx, ghost t: Tree)
      requires Wf() && tree == Plug(c, t) && t.N? && t.node == p && t.left.N?
      modifies this, Repr()
      ensures Wf() && tree == Plug(c, RotateRight(t)) && Repr() == old(Repr())
    {
      PlugRotateRight(c, t);
      ghost var m, m' := Info(tree, null), Info(Plug(c, RotateRight(t)), null);
      assert FieldsOf(p) == m[p];
      RelinkRight(p, m, m', Plug(c, RotateRight(t)));
    }
  
    /** Case 2.1 of InsertFixUp: the red parent and the red uncle turn
        black and the grandparent turns red. */
    method RecolorWithUncle(parent: Node, uncle: Node, grandParent: Node, ghost c: Ctx, ghost t: Tree)
      requires Wf() && tree == Plug(c, t) && t.N? && !c.Top? && !c.up.Top? && c.up.sibling.N?
      requires parent == c.parent && uncle == c.up.sibling.node && grandParent == c.up.parent
      modifies this`tree, parent`color, uncle`color, grandParent`color
      ensures Wf() && Repr() == old(Repr())
      ensures tree == Plug(c.up.up, Fill(c.up.(color := Red, sibling := c.up.sibling.(color := Black)), Fill(c.(color := Black), t)))
    {
      ghost var up, f, u := c.up, Fill(c, t), c.up.sibling;
      Paint(parent, Black, up, f);
      ghost var f' := Fill(c.(color := Black), t);
      ghost var cu := if up.HoleLeft? then HoleRight(up.parent, up.color, up.key, f', up.up)
                      else HoleLeft(up.parent, up.color, up.key, f', up.up);
      assert Plug(up, f') == Plug(cu, u);
      Paint(uncle, Black, cu, u);
      ghost var u' := u.(color := Black);
      Paint(grandParent, Red, up.up, Fill(cu, u'));
    }

    /** Case 2.3 of InsertFixUp: for an outer grandchild the parent turns
        black, the grandparent red, and the grandparent is rotated towards
        the uncle. */
    method RecolorRotate(parent: Node, grandParent: Node, parentIsLeft: bool, ghost c: Ctx, ghost t: Tree)
      requires Wf() && tree == Plug(c, t) && t.N? && !c.Top? && !c.up.Top?
      requires parent == c.parent && grandParent == c.up.parent
      requires parentIsLeft == c.up.HoleLeft? && c.HoleLeft? == parentIsLeft
      modifies this, Repr()
      ensures Wf() && Repr() == old(Repr())
      ensures var up := c.up;
        tree == if parentIsLeft
          then Plug(up.up, RotateRight(N(up.parent, Red, up.key, N(c.parent, Black, c.key, t, c.sibling), up.sibling)))
          else Plug(up.up, RotateLeft(N(up.parent, Red, up.key, up.sibling, N(c.parent, Black, c.key, c.sibling, t))))
    {
      FamilyEntries(c, t);
      ghost var up, f := c.up, Fill(c, t);
      Paint(parent, Black, up, f);
      ghost var f' := Fill(c.(color := Black), t);
      Paint(grandParent, Red, up.up, Fill(up, f'));
      ghost var g := Fill(up, f').(color := Red);
      if parentIsLeft {
        RightRotate(grandParent, up.up, g);
      } else {
        LeftRotate(grandParent, up.up, g);
      }
    }

    /** InsertFixUp(node) for the node at the top of the subtree t in the
        hole of c: the heap ends up representing FixUp(c, t). A root is
        blackened (case 1); a black parent ends the repair; a red parent
        with a red uncle is recoloured with the uncle and the repair moves to
        the grandparent (case 2.1); an inner grandchild is rotated outward
        and the repair goes on at the old parent (case 2.2); an outer
        grandchild recolours its parent and grandparent and rotates the
        grandparent (case 2.3). */
    method InsertFixUp(x: Node, ghost c: Ctx, ghost t: Tree)
      requires Wf() && tree == Plug(c, t) && t.N? && t.node == x
      requires Repairable(c)
      modifies this, Repr()
      ensures Wf() && tree == FixUp(c, t) && Repr() == old(Repr())
      decreases 2 * Depth(c) + (if Inner(c) then 1 else 0)
    {
      FamilyEntries(c, t);
      ghost var m := Info(tree, null);
      assert FieldsOf(x) == m[x];
      var parent := x.parent;
      if parent == null {
        Paint(x, Black, c, t);
        return;
      }
      assert FieldsOf(parent) == m[parent];
      if !parent.IsRed() {
        return;
      }
      FixUpRedParent(c, t);
      var grandParent := parent.parent;
      assert FieldsOf(grandParent) == m[grandParent];
      var parentIsLeft := parent == grandParent.left;
      var isLeft := x == parent.left;
      var uncle := if parentIsLeft then grandParent.right else grandParent.left;
      if uncle != null {
        assert FieldsOf(uncle) == m[uncle];
      }
      if uncle != null && uncle.IsRed() {
        // Case 2.1
        RecolorWithUncle(parent, uncle, grandParent, c, t);
        InsertFixUp(grandParent, c.up.up, Fill(c.up.(color := Red, sibling := c.up.sibling.(color := Black)), Fill(c.(color := Black), t)));
      } else if parentIsLeft && !isLeft {
        // Case 2.2, left-right
        LeftRotate(parent, c.up, Fill(c, t));
        InsertFixUp(parent, HoleLeft(t.node, t.color, t.key, t.right, c.up), N(c.parent, c.color, c.key, c.sibling, t.left));
      } else if !parentIsLeft && isLeft {
        // Case 2.2, right-left
        RightRotate(parent, c.up, Fill(c, t));
        InsertFixUp(parent, HoleRight(t.node, t.color, t.key, t.left, c.up), N(c.parent, c.color, c.key, t.right, c.sibling));
      } else {
        // Case 2.3
        RecolorRotate(parent, grandParent, parentIsLeft, c, t);
      }
    }
  
    /** RBTree::TestRotate: LeftRotate or RightRotate as rotLeft says. A
        rotation keeps the in-order key sequence, so a valid tree stays
        valid and can be searched, grown and shrunk afterwards. */
    method TestRotate(rotLeft: bool, p: Node, ghost c: Ctx, ghost t: Tree)
      requires Wf() && tree == Plug(c, t) && t.N? && t.node == p
      requires if rotLeft then t.right.N? else t.left.N?
      modifies this, Repr()
      ensures Wf() && Repr() == old(Repr())
      ensures tree == Plug(c, if rotLeft then RotateLeft(t) else RotateRight(t))
      ensures Inorder(tree) == old(Inorder(tree)) && Keys(tree) == old(Keys(tree))
      ensures Ordered(tree) <==> old(Ordered(tree))
      ensures old(Valid()) ==> Valid()
    {
      ghost var t' := if rotLeft then RotateLeft(t) else RotateRight(t);
      if rotLeft {
        LeftRotate(p, c, t);
      } else {
        RightRotate(p, c, t);
      }
      PlugInorder(c, t', t);
      SameInorder(tree, old(tree));
    }

    /** The heap writes of attaching n below p: node->parent_ = parent, then
        parent->left_ (or right_) = node. */
    method SetLinks(p: Node, n: Node, isLeft: bool, ghost m: map<Node, Fields>, ghost m': map<Node, Fields>, ghost t': Tree)
      requires Agree(m) && p in m && n !in m && FieldsOf(n) == Fields(n.key, Red, null, null, null)
      requires m'.Keys == m.Keys + {n} && (forall x :: x in m && x != p ==> m'[x] == m[x])
      requires m'[p] == (if isLeft then m[p].(left := n) else m[p].(right := n))
      requires m'[n] == Fields(n.key, Red, null, null, p)
      modifies this`tree, p`left, p`right, n`parent
      ensures Agree(m') && tree == t'
    {
      n.parent := p;
      if isLeft {
        p.left := n;
      } else {
        p.right := n;
      }
      tree := t';
      forall x | x in m'
        ensures FieldsOf(x) == m'[x]
      {
        if x != p && x != n {
          assert old(FieldsOf(x)) == m[x];
        }
      }
    }

    /** The leaf step of InsertRecursively: the fresh node n fills the empty
        hole of d, whose parent is p. */
    method Link(p: Node, n: Node, isLeft: bool, ghost d: Ctx)
      requires Wf() && tree == Plug(d, Nil) && !d.Top? && p == d.parent && isLeft == d.HoleLeft?
      requires n !in Repr() && FieldsOf(n) == Fields(n.key, Red, null, null, null)
      modifies this`tree, p`left, p`right, n`parent
      ensures Wf() && tree == Plug(d, Leaf(n, n.key)) && Repr() == old(Repr()) + {n}
    {
      PlugAttach(d, n, n.key);
      SetLinks(p, n, isLeft, Info(tree, null), Info(Plug(d, Leaf(n, n.key)), null), Plug(d, Leaf(n, n.key)));
    }

    /** node->SetRed(); InsertFixUp(node) on the fresh leaf in the hole
        of d. */
    method RepairLeaf(node: Node, ghost d: Ctx, ghost k: int)
      requires Wf() && tree == Plug(d, Leaf(node, k))
      requires Repairable(d)
      modifies this, Repr()
      ensures Wf() && tree == FixUp(d, Leaf(node, k)) && Repr() == old(Repr())
    {
      PlugParts(d, Leaf(node, k));
      Paint(node, Red, d, Leaf(node, k));
      InsertFixUp(node, d, Leaf(node, k));
    }

    /** InsertRecursively on an empty tree: the reference root_ takes the
        node, which the RBTree then makes red and repairs (blackens). */
    method AttachRoot(node: Node)
      requires Wf() && tree == Nil
      requires node !in Repr() && FieldsOf(node) == Fields(node.key, Red, null, null, null)
      modifies this, node
      ensures Wf() && Repr() == {node}
      ensures tree == if kind == RBTree then RBInsertIn(Top, Nil, node, old(node.key)) else Leaf(node, old(node.key))
    {
      root := node;
      tree := Leaf(node, node.key);
      if kind == RBTree {
        RepairLeaf(node, Top, node.key);
      }
    }

    /** The attaching branch of InsertRecursively: parent, the root of t,
        has no child on the side where the search for node's key goes on, so
        node becomes that child; the RBTree makes it red and repairs. */
    method AttachBelow(parent: Node, node: Node, isLeft: bool, ghost d: Ctx)
      requires Wf() && tree == Plug(d, Nil) && !d.Top? && parent == d.parent && isLeft == d.HoleLeft?
      requires node !in Repr() && FieldsOf(node) == Fields(node.key, Red, null, null, null)
      requires kind == RBTree ==> Repairable(d)
      modifies this, Repr(), node
      ensures Wf() && Repr() == old(Repr()) + {node}
      ensures tree == if kind == RBTree then FixUp(d, Leaf(node, old(node.key)))
                      else Plug(d, Leaf(node, old(node.key)))
    {
      ghost var k := node.key;
      PlugParts(d, Nil);
      Link(parent, node, isLeft, d);
      if kind == RBTree {
        RepairLeaf(node, d, k);
      }
    }

    /** InsertRecursively(parent, node) of both trees, where parent is the
        root of the subtree t in the hole of c (a null parent is the reference
        root_ of an empty tree). The search for node's key goes down from
        parent; a key already present gives false and no change, otherwise
        node becomes the leaf where the search ends and, in the RBTree, is
        made red and repaired by InsertFixUp. */
    method InsertRecursively(parent: Node?, node: Node, ghost c: Ctx, ghost t: Tree) returns (ok: bool)
      requires Wf() && tree == Plug(c, t) && parent == Root(t) && (t.Nil? ==> c.Top?)
      requires node !in Repr() && FieldsOf(node) == Fields(node.key, Red, null, null, null)
      requires kind == RBTree && !Find(t, node.key).N? ==> Repairable(Descend(c, t, node.key))
      modifies this, Repr(), node
      ensures Wf()
      ensures ok == !Find(t, old(node.key)).N?
      ensures !ok ==> tree == old(tree)
      ensures ok ==> Repr() == old(Repr()) + {node}
      ensures ok ==> tree == if kind == RBTree then RBInsertIn(c, t, node, old(node.key))
                             else Plug(c, InsertRec(t, node, old(node.key)))
      decreases t
    {
      if parent == null {
        AttachRoot(node);
        return true;
      }
      InfoTop(c, t);
      assert FieldsOf(parent) == Info(tree, null)[parent];
      RootNull(t.left);
      RootNull(t.right);
      if node.key < parent.key {
        if parent.left != null {
          ghost var c' := HoleLeft(t.node, t.color, t.key, t.right, c);
          InsertStep(c, t, c', t.left, node, node.key);
          ok := InsertRecursively(parent.left, node, c', t.left);
          return;
        }
        ghost var d := HoleLeft(t.node, t.color, t.key, t.right, c);
        AttachStep(c, t, d, node, node.key);
        AttachBelow(parent, node, true, d);
        return true;
      } else if node.key > parent.key {
        if parent.right != null {
          ghost var c' := HoleRight(t.node, t.color, t.key, t.left, c);
          InsertStep(c, t, c', t.right, node, node.key);
          ok := InsertRecursively(parent.right, node, c', t.right);
          return;
        }
        ghost var d := HoleRight(t.node, t.color, t.key, t.left, c);
        AttachStep(c, t, d, node, node.key);
        AttachBelow(parent, node, false, d);
        return true;
      }
      return false;
    }

    /** BinaryTreeBase::Insert(data): a fresh node holding k goes through
        InsertRecursively from root_; when k is already present the node is
        freed and null is returned. In the red-black kind InsertFixUp
        dereferences the grandparent of every red parent it meets, so the
        insertion is only defined where the repair never meets a red root
        (Repairable); a black root guarantees that. */
    method Insert(k: int) returns (r: Node?)
      requires Valid()
      requires kind == RBTree && !Find(tree, k).N? ==> Repairable(Descend(Top, tree, k))
      modifies this, Repr()
      ensures Valid()
      ensures r == null <==> k in old(Keys(tree))
      ensures r == null ==> tree == old(tree)
      ensures r != null ==> fresh(r) && Repr() == old(Repr()) + {r}
      ensures r != null ==> Keys(tree) == old(Keys(tree)) + {k}
      ensures r != null ==> tree == if kind == RBTree then RBInsert(old(tree), r, k) else InsertRec(old(tree), r, k)
      ensures r != null && kind == BinarySearchTree ==> r.key == k && Find(tree, k) == Leaf(r, k)
      ensures kind == RBTree && old(ColorOf(tree)) == Black ==> ColorOf(tree) == Black
      ensures kind == RBTree && old(IsRB(tree)) ==> IsRB(tree)
    {
      ghost var t := tree;
      FindIffKey(t, k);
      NodesAllocated(t);
      var node := new Node(k);
      var ok := InsertRecursively(root, node, Top, t);
      if ok {
        r := node;
        InsertOrdered(t, node, k);
        if kind == RBTree {
          if ColorOf(t) == Black {
            RBInsertRootBlack(t, node, k);
          }
          RBInsertInorder(t, node, k);
          SameInorder(RBInsert(t, node, k), InsertRec(t, node, k));
          if IsRB(t) {
            RBInsertCorrect(t, node, k);
          }
        } else {
          ghost var found := SearchRecursively(root, k, tree, null);
          assert found == r;
        }
      } else {
        r := null;
      }
    }

    /** SearchRecursively(node, target) of both trees, for node the root of
        the subtree t hanging from up: the node holding k, found by going
        left while the node's key is larger and right while it is smaller. */
    function SearchRecursively(node: Node?, k: int, ghost t: Tree, ghost up: Node?): (r: Node?)
      reads Nodes(t)
      requires Distinct(t) && Agree(Info(t, up)) && node == Root(t)
      ensures r == Root(Find(t, k))
      ensures r != null ==> r in Nodes(t) && r.key == k
      decreases t
    {
      RootNull(t);
      if node == null then null
      else
        assert FieldsOf(node) == Info(t, up)[node];
        AgreeChildren(t, up);
        if node.key == k then node
        else if node.key > k then SearchRecursively(node.left, k, t.left, t.node)
        else SearchRecursively(node.right, k, t.right, t.node)
    }

    /** BinaryTreeBase::Search: a node holding k exactly when k is in the
        tree, null otherwise. */
    function Search(k: int): (r: Node?)
      reads this, Repr()
      requires Valid()
      ensures r != null <==> k in Keys(tree)
      ensures r != null ==> r in Repr() && r.key == k
    {
      FindIffKey(tree, k);
      SearchRecursively(root, k, tree, null)
    }

    /** BinaryTreeBase::GetHeightInternal(node) for node the root of the
        subtree t hanging from up: the number of nodes on its longest
        downward path. */
    function GetHeightInternal(node: Node?, ghost t: Tree, ghost up: Node?): (h: nat)
      reads Nodes(t)
      requires Distinct(t) && Agree(Info(t, up)) && node == Root(t)
      ensures h == Height(t)
      decreases t
    {
      RootNull(t);
      if node == null then 0
      else
        assert FieldsOf(node) == Info(t, up)[node];
        AgreeChildren(t, up);
        var leftHeight := GetHeightInternal(node.left, t.left, t.node);
        var rightHeight := GetHeightInternal(node.right, t.right, t.node);
        (if leftHeight >= rightHeight then leftHeight else rightHeight) + 1
    }

    /** BinaryTreeBase::GetHeight. */
    function GetHeight(): (h: nat)
      reads this, Repr()
      requires Wf()
      ensures h == Height(tree)
      ensures h == 0 <==> tree.Nil?
      ensures h <= Size(tree)
    {
      HeightSize(tree);
      GetHeightInternal(root, tree, null)
    }

    /** BinaryTreeBase::Clear: the nodes are released and root_ is null, so
        the height is 0 and every search fails. */
    method Clear()
      modifies this
      ensures Valid() && tree == Nil && Repr() == {}
      ensures GetHeight() == 0 && forall k :: Search(k) == null
    {
      root := null;
      tree := Nil;
    }

    /** The pointer surgery of DeleteRecursively's first three cases at a
        node with at most one child: that child (or null) takes the node's
        place under its parent, or becomes root_, and gets the parent as its
        back-link. The heap moves from m to m' as SplicedAt describes. */
    method Unlink(node: Node, ghost m: map<Node, Fields>, ghost m': map<Node, Fields>, ghost t': Tree)
      requires Agree(m) && SplicedAt(m, m', node)
      modifies this`root, this`tree, m.Keys`left, m.Keys`right, m.Keys`parent
      ensures Agree(m') && tree == t'
      ensures root == if old(node.parent) != null then old(root)
                      else if old(node.right) == null then old(node.left) else old(node.right)
    {
      var parent := node.parent;
      var isRoot := parent == null;
      var isLeftChild := !isRoot && parent.left == node;
      if node.left == null && node.right == null {
        if isRoot {
          root := null;
        } else if isLeftChild {
          parent.left := null;
        } else {
          parent.right := null;
        }
      } else if node.right == null {
        var l := node.left;
        if isRoot {
          root := l;
        } else if isLeftChild {
          parent.left := l;
        } else {
          parent.right := l;
        }
        l.parent := parent;
      } else {
        var r := node.right;
        if isRoot {
          root := r;
        } else if isLeftChild {
          parent.left := r;
        } else {
          parent.right := r;
        }
        r.parent := parent;
      }
      tree := t';
      ghost var s := if old(node.right) == null then old(node.left) else old(node.right);
      assert parent != null ==> FieldsOf(parent) == m'[parent];
      assert s != null ==> FieldsOf(s) == m'[s];
      forall n | n in m'
        ensures FieldsOf(n) == m'[n]
      {
        if n != parent && n != s {
          assert old(FieldsOf(n)) == m[n];
        }
      }
    }

    /** Cases 1 and 2 of DeleteRecursively on the node at the top of the
        subtree t in the hole of c, which has at most one child: the node is
        unlinked and its child, if any, moves up into its place. */
    method SpliceOut(node: Node, ghost c: Ctx, ghost t: Tree)
      requires Wf() && tree == Plug(c, t) && t.N? && t.node == node && (t.left.Nil? || t.right.Nil?)
      modifies this`root, this`tree, Repr()`left, Repr()`right, Repr()`parent
      ensures Wf() && tree == Plug(c, if t.right.Nil? then t.left else t.right)
    {
      ghost var s := if t.right.Nil? then t.left else t.right;
      PlugSplice(c, t);
      InfoTop(c, t);
      RootNull(t.left);
      RootNull(t.right);
      assert FieldsOf(node) == Info(tree, null)[node];
      Unlink(node, Info(tree, null), Info(Plug(c, s), null), Plug(c, s));
    }

    /** node->data_ = k on the heap: only that node's key changes. */
    method SetKey(x: Node, k: int, ghost m: map<Node, Fields>, ghost m': map<Node, Fields>, ghost t': Tree)
      requires Agree(m) && x in m && m' == m[x := m[x].(key := k)]
      modifies this`tree, x`key
      ensures Agree(m') && tree == t'
    {
      tree := t';
      x.key := k;
      forall n | n in m'
        ensures FieldsOf(n) == m'[n]
      {
        if n != x {
          assert old(FieldsOf(n)) == m[n];
        }
      }
    }

    /** node->data_ = k for the node at the top of the subtree t in the hole
        of c: the represented tree has that node's key replaced. */
    method CopyKey(node: Node, k: int, ghost c: Ctx, ghost t: Tree)
      requires Wf() && tree == Plug(c, t) && t.N? && t.node == node
      modifies this`tree, node`key
      ensures Wf() && tree == Plug(c, t.(key := k)) && Repr() == old(Repr())
    {
      PlugParts(c, t);
      PlugParts(c, t.(key := k));
      PlugRekey(c, t, k);
      SetKey(node, k, Info(tree, null), Info(Plug(c, t.(key := k)), null), Plug(c, t.(key := k)));
    }

    /** The loop of DeleteRecursively's two-child case: from node->left_
        follow right_ links while there is one. It stops at the rightmost
        node of the left subtree, which holds its largest key and has no
        right child. */
    method Predecessor(node: Node, ghost c: Ctx, ghost t: Tree) returns (p: Node, ghost d: Ctx, ghost x: Tree)
      requires Wf() && tree == Plug(c, t) && t.N? && t.node == node && t.left.N?
      ensures RightSpine(d) && x.N? && x.right.Nil? && Plug(d, x) == t.left && p == x.node
      ensures p.key == Max(t.left) && p.right == null && p != node
    {
      ghost var m := Info(tree, null);
      InfoTop(c, t);
      assert FieldsOf(node) == m[node];
      p := node.left;
      d, x := Top, t.left;
      ghost var e := HoleLeft(t.node, t.color, t.key, t.right, c);
      InfoTop(e, x);
      assert FieldsOf(p) == m[p];
      RootNull(x.right);
      while p.right != null
        invariant Distinct(tree) && Agree(m) && m == Info(tree, null)
        invariant RightSpine(d) && x.N? && Plug(d, x) == t.left && p == x.node
        invariant Plug(e, x) == tree
        invariant p.key == x.key && p.right == Root(x.right) && (p.right == null <==> x.right.Nil?)
        decreases x
      {
        p := p.right;
        d, e := HoleRight(x.node, x.color, x.key, x.left, d), HoleRight(x.node, x.color, x.key, x.left, e);
        x := x.right;
        InfoTop(e, x);
        assert FieldsOf(p) == m[p];
        RootNull(x.right);
      }
      SpineMax(d, x);
      PlugParts(d, x);
      PlugParts(c, t);
    }

    /** Case 3 of DeleteRecursively, for a node with two children: it takes
        the key of its in-order predecessor, and the predecessor is deleted
        in its place. */
    method ReplaceByPredecessor(node: Node, ghost c: Ctx, ghost t: Tree)
      requires Wf() && tree == Plug(c, t) && t.N? && t.node == node && t.left.N? && t.right.N?
      modifies this`root, this`tree, Repr()`left, Repr()`right, Repr()`parent, Repr()`key
      ensures Wf() && tree == Plug(c, DeleteKey(t, t.key))
      decreases Size(t), 0
    {
      var inoPrev;
      ghost var d, x;
      NodesAllocated(tree);
      inoPrev, d, x := Predecessor(node, c, t);
      PlugParts(c, t);
      CopyKey(node, inoPrev.key, c, t);
      PredecessorStep(c, t, d, x);
      var ok := DeleteRecursively(inoPrev, inoPrev.key, Append(d, HoleLeft(t.node, t.color, x.key, t.right, c)), x);
    }

    /** DeleteRecursively(node, target) of both trees, for node the root of
        the subtree t in the hole of c: the search for k goes down from node;
        an absent key gives false and no change, otherwise the node holding
        k is removed as DeleteKey describes and the result is true. No
        colour is changed and no rotation is made, in the RBTree as well. */
    method DeleteRecursively(node: Node?, k: int, ghost c: Ctx, ghost t: Tree) returns (ok: bool)
      requires Wf() && tree == Plug(c, t) && node == Root(t)
      modifies this`root, this`tree, Repr()`left, Repr()`right, Repr()`parent, Repr()`key
      ensures Wf() && ok == Find(t, k).N? && tree == Plug(c, DeleteKey(t, k))
      decreases Size(t), 1
    {
      RootNull(t);
      if node == null {
        return false;
      }
      InfoTop(c, t);
      assert FieldsOf(node) == Info(tree, null)[node];
      RootNull(t.left);
      RootNull(t.right);
      if node.key > k {
        ghost var c' := HoleLeft(t.node, t.color, t.key, t.right, c);
        DeleteStep(c, t, c', t.left, k);
        ok := DeleteRecursively(node.left, k, c', t.left);
      } else if node.key < k {
        ghost var c' := HoleRight(t.node, t.color, t.key, t.left, c);
        DeleteStep(c, t, c', t.right, k);
        ok := DeleteRecursively(node.right, k, c', t.right);
      } else if node.left == null || node.right == null {
        SpliceOut(node, c, t);
        ok := true;
      } else {
        ReplaceByPredecessor(node, c, t);
        ok := true;
      }
    }

    /** BinaryTreeBase::Delete: true and the key removed when it was present,
        false and no change otherwise. No node changes colour. */
    method Delete(k: int) returns (ok: bool)
      requires Valid()
      modifies this`root, this`tree, Repr()`left, Repr()`right, Repr()`parent, Repr()`key
      ensures Valid()
      ensures ok == (k in old(Keys(tree)))
      ensures tree == DeleteKey(old(tree), k)
      ensures Keys(tree) == old(Keys(tree)) - {k}
      ensures !ok ==> tree == old(tree)
      ensures Repr() <= old(Repr())
      ensures forall n :: old(allocated(n)) && n in old(Repr()) ==> n.color == old(n.color)
    {
      FindIffKey(tree, k);
      DeleteOrdered(tree, k);
      ok := DeleteRecursively(root, k, Top, tree);
    }
}
}
