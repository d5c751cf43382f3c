/** The red-black rules and the insertion repair of RBTree::InsertFixUp
    (binary_tree/bt.hpp), stated and proved on tree values. The pointer code in
    module Bt is shown to compute exactly FixUp. */
module RedBlack {
  import opened TreeNodes
  import opened Trees

  /** No red node has a red child (absent children are black). */
  predicate NoRedRed(t: Tree) {
    match t
    case Nil => true
    case N(_, col, _, l, r) =>
      && (col == Red ==> ColorOf(l) == Black && ColorOf(r) == Black)
      && NoRedRed(l) && NoRedRed(r)
  }

  /** Black nodes on the leftmost path down to an absent child. */
  function BlackHeight(t: Tree): nat {
    match t
    case Nil => 0
    case N(_, col, _, l, _) => BlackHeight(l) + (if col == Black then 1 else 0)
  }

  /** Every path from a node down to an absent child meets the same number of
      black nodes. */
  predicate Balanced(t: Tree) {
    match t
    case Nil => true
    case N(_, _, _, l, r) => BlackHeight(l) == BlackHeight(r) && Balanced(l) && Balanced(r)
  }

  predicate IsRB(t: Tree) {
    ColorOf(t) == Black && NoRedRed(t) && Balanced(t)
  }

  /** No red-red edge in c, given that the hole holds a tree of root colour hc. */
  predicate CtxNoRedRed(c: Ctx, hc: Color) {
    c.Top? ||
    (&& NoRedRed(c.sibling)
     && (c.color == Red ==> hc == Black && ColorOf(c.sibling) == Black)
     && CtxNoRedRed(c.up, c.color))
  }

  /** All paths through c meet the same number of black nodes, given that the
      hole holds a tree of black height h. */
  predicate CtxBalanced(c: Ctx, h: nat) {
    c.Top? ||
    (&& Balanced(c.sibling) && BlackHeight(c.sibling) == h
     && CtxBalanced(c.up, h + (if c.color == Black then 1 else 0)))
  }

  /** The colour of the whole tree's root, seen from a non-empty context. */
  function OuterColor(c: Ctx): Color
    requires !c.Top?
  {
    if c.up.Top? then c.color else OuterColor(c.up)
  }

  /** The hole is an inner grandchild: a right child under a left child or the
      mirror image. */
  predicate Inner(c: Ctx) {
    !c.Top? && !c.up.Top? && (c.HoleLeft? != c.up.HoleLeft?)
  }

  /** InsertFixUp started at the hole of c never meets a red parent that is
      the root: there it would read the missing grandparent (bt.hpp:557-558).
      The root itself, a black parent and a black uncle end the repair
      safely; a red uncle moves it two levels up. A black root makes every
      position safe, which the second disjunct says outright. */
  predicate Repairable(c: Ctx)
    decreases c
  {
    || c.Top?
    || OuterColor(c) == Black
    || c.color == Black
    || (!c.up.Top? && (ColorOf(c.up.sibling) == Red ==> Repairable(c.up.up)))
  }

  /** The same nodes, one level moved: plugging two subtrees with the same
      nodes into one context gives trees with the same nodes. */
  lemma PlugSameNodes(c: Ctx, a: Tree, b: Tree)
    requires Nodes(a) == Nodes(b)
    ensures Nodes(Plug(c, a)) == Nodes(Plug(c, b))
    ensures a.N? ==> Plug(c, a).N?
  {
    PlugParts(c, a);
    PlugParts(c, b);
  }

  /** InsertFixUp(node) on values: c is where node sits, t its subtree.
      Case 1 (root) blackens it; a black parent ends the repair; a red parent
      with a red uncle recolours and repairs the grandparent (case 2.1); an
      inner grandchild is rotated outward and the repair goes on at the old
      parent (case 2.2); an outer grandchild recolours and rotates the
      grandparent (case 2.3). The repair only recolours and relinks: the
      result holds the nodes of the whole tree. */
  function FixUp(c: Ctx, t: Tree): (r: Tree)
    requires t.N?
    requires Repairable(c)
    ensures r.N? && Nodes(r) == Nodes(Plug(c, t))
    decreases 2 * Depth(c) + (if Inner(c) then 1 else 0)
  {
    if c.Top? then
      t.(color := Black)
    else if c.color == Black then
      PlugParts(c, t);
      Plug(c, t)
    else
      var up := c.up;
      var uncle := up.sibling;
      assert !up.Top?;
      assert Depth(c) == Depth(up.up) + 2;
      assert up.up.Top? || OuterColor(up.up) == OuterColor(c);
      var whole := Fill(up, Fill(c, t));
      assert Plug(c, t) == Plug(up.up, whole);
      if ColorOf(uncle) == Red then
        var g := Fill(up.(color := Red, sibling := uncle.(color := Black)), Fill(c.(color := Black), t));
        PlugSameNodes(up.up, g, whole);
        FixUp(up.up, g)
      else if up.HoleLeft? && c.HoleRight? then
        var c', t' := HoleLeft(t.node, t.color, t.key, t.right, up), N(c.parent, c.color, c.key, c.sibling, t.left);
        PlugSameNodes(up, Fill(c', t'), Fill(c, t));
        FixUp(c', t')
      else if up.HoleRight? && c.HoleLeft? then
        var c', t' := HoleRight(t.node, t.color, t.key, t.left, up), N(c.parent, c.color, c.key, t.right, c.sibling);
        PlugSameNodes(up, Fill(c', t'), Fill(c, t));
        FixUp(c', t')
      else if up.HoleLeft? then
        var g := RotateRight(N(up.parent, Red, up.key, N(c.parent, Black, c.key, t, c.sibling), up.sibling));
        PlugSameNodes(up.up, g, whole);
        Plug(up.up, g)
      else
        var g := RotateLeft(N(up.parent, Red, up.key, up.sibling, N(c.parent, Black, c.key, c.sibling, t)));
        PlugSameNodes(up.up, g, whole);
        Plug(up.up, g)
  }

  /** Below a red parent the repair has a grandparent, and FixUp takes the
      branch InsertFixUp takes: a red uncle moves the repair two levels up,
      an inner grandchild is rotated outward into the outer position one
      level up (with the old parent now in the hole), and an outer
      grandchild ends in a rotation at the grandparent. */
  lemma FixUpRedParent(c: Ctx, t: Tree)
    requires t.N? && !c.Top? && c.color == Red && Repairable(c)
    ensures !c.up.Top? && Depth(c) == Depth(c.up.up) + 2
    ensures ColorOf(c.up.sibling) == Red ==> Repairable(c.up.up)
    ensures ColorOf(c.up.sibling) == Red ==>
      FixUp(c, t) == FixUp(c.up.up, Fill(c.up.(color := Red, sibling := c.up.sibling.(color := Black)), Fill(c.(color := Black), t)))
    ensures ColorOf(c.up.sibling) == Black && c.up.HoleLeft? && c.HoleRight? ==>
      var c', t' := HoleLeft(t.node, t.color, t.key, t.right, c.up), N(c.parent, c.color, c.key, c.sibling, t.left);
      && Plug(c.up, RotateLeft(Fill(c, t))) == Plug(c', t')
      && Repairable(c') && Depth(c') == Depth(c) && !Inner(c')
      && FixUp(c, t) == FixUp(c', t')
    ensures ColorOf(c.up.sibling) == Black && c.up.HoleRight? && c.HoleLeft? ==>
      var c', t' := HoleRight(t.node, t.color, t.key, t.left, c.up), N(c.parent, c.color, c.key, t.right, c.sibling);
      && Plug(c.up, RotateRight(Fill(c, t))) == Plug(c', t')
      && Repairable(c') && Depth(c') == Depth(c) && !Inner(c')
      && FixUp(c, t) == FixUp(c', t')
    ensures ColorOf(c.up.sibling) == Black && c.up.HoleLeft? && c.HoleLeft? ==>
      var up := c.up;
      FixUp(c, t) == Plug(up.up, RotateRight(N(up.parent, Red, up.key, N(c.parent, Black, c.key, t, c.sibling), up.sibling)))
    ensures ColorOf(c.up.sibling) == Black && c.up.HoleRight? && c.HoleRight? ==>
      var up := c.up;
      FixUp(c, t) == Plug(up.up, RotateLeft(N(up.parent, Red, up.key, up.sibling, N(c.parent, Black, c.key, c.sibling, t))))
  {
    var up := c.up;
    assert !up.Top?;
    assert up.up.Top? || OuterColor(up.up) == OuterColor(c);
  }

  lemma {:induction false} PlugColor(c: Ctx, t: Tree)
    requires !c.Top?
    ensures ColorOf(Plug(c, t)) == OuterColor(c)
    decreases c
  {
    if !c.up.Top? {
      PlugColor(c.up, Fill(c, t));
    }
  }

  lemma {:induction false} PlugNoRedRed(c: Ctx, t: Tree)
    ensures NoRedRed(Plug(c, t)) <==> NoRedRed(t) && CtxNoRedRed(c, ColorOf(t))
    decreases c
  {
    if !c.Top? {
      PlugNoRedRed(c.up, Fill(c, t));
    }
  }

  lemma {:induction false} PlugBalanced(c: Ctx, t: Tree)
    ensures Balanced(Plug(c, t)) <==> Balanced(t) && CtxBalanced(c, BlackHeight(t))
    decreases c
  {
    if !c.Top? {
      PlugBalanced(c.up, Fill(c, t));
    }
  }

  /** The repair only recolours and rotates: the in-order key sequence of the
      whole tree is unchanged. */
  lemma {:induction false} FixUpInorder(c: Ctx, t: Tree)
    requires t.N?
    requires Repairable(c)
    ensures Inorder(FixUp(c, t)) == Inorder(Plug(c, t))
    decreases 2 * Depth(c) + (if Inner(c) then 1 else 0)
  {
    if c.Top? || c.color == Black {
    } else {
      FixUpRedParent(c, t);
      var up := c.up;
      if ColorOf(up.sibling) == Red {
        assert Plug(c, t) == Plug(up.up, Fill(up, Fill(c, t)));
        RecolorInorder(up.up, up, Fill(c, t), Fill(c.(color := Black), t));
        FixUpInorder(up.up, Fill(up.(color := Red, sibling := up.sibling.(color := Black)), Fill(c.(color := Black), t)));
      } else if up.HoleLeft? && c.HoleRight? {
        InnerStepInorder(c, t);
        FixUpInorder(HoleLeft(t.node, t.color, t.key, t.right, up), N(c.parent, c.color, c.key, c.sibling, t.left));
      } else if up.HoleRight? && c.HoleLeft? {
        InnerStepInorder(c, t);
        FixUpInorder(HoleRight(t.node, t.color, t.key, t.left, up), N(c.parent, c.color, c.key, t.right, c.sibling));
      } else {
        OuterStepInorder(c, t);
      }
    }
  }

  /** Case 2.2 keeps the in-order sequence: rotating the red parent puts it
      in the hole below the old child, with the same keys in the same order. */
  lemma InnerStepInorder(c: Ctx, t: Tree)
    requires t.N? && !c.Top? && !c.up.Top?
    ensures c.up.HoleLeft? && c.HoleRight? ==>
      Inorder(Plug(HoleLeft(t.node, t.color, t.key, t.right, c.up), N(c.parent, c.color, c.key, c.sibling, t.left)))
      == Inorder(Plug(c, t))
    ensures c.up.HoleRight? && c.HoleLeft? ==>
      Inorder(Plug(HoleRight(t.node, t.color, t.key, t.left, c.up), N(c.parent, c.color, c.key, t.right, c.sibling)))
      == Inorder(Plug(c, t))
  {
    var up := c.up;
    if up.HoleLeft? && c.HoleRight? {
      var c', t' := HoleLeft(t.node, t.color, t.key, t.right, up), N(c.parent, c.color, c.key, c.sibling, t.left);
      assert Fill(c', t') == RotateLeft(Fill(c, t));
      PlugInorder(up, Fill(c', t'), Fill(c, t));
    } else if up.HoleRight? && c.HoleLeft? {
      var c', t' := HoleRight(t.node, t.color, t.key, t.left, up), N(c.parent, c.color, c.key, t.right, c.sibling);
      assert Fill(c', t') == RotateRight(Fill(c, t));
      PlugInorder(up, Fill(c', t'), Fill(c, t));
    }
  }

  /** Case 2.3 keeps the in-order sequence: the grandparent, recoloured, is
      rotated in place. */
  lemma OuterStepInorder(c: Ctx, t: Tree)
    requires t.N? && !c.Top? && !c.up.Top? && c.HoleLeft? == c.up.HoleLeft?
    ensures var up := c.up;
      Inorder(Plug(up.up, if up.HoleLeft?
        then RotateRight(N(up.parent, Red, up.key, N(c.parent, Black, c.key, t, c.sibling), up.sibling))
        else RotateLeft(N(up.parent, Red, up.key, up.sibling, N(c.parent, Black, c.key, c.sibling, t)))))
      == Inorder(Plug(c, t))
  {
    var up := c.up;
    var whole := Fill(up, Fill(c, t));
    assert Plug(c, t) == Plug(up.up, whole);
    if up.HoleLeft? {
      PlugInorder(up.up, RotateRight(N(up.parent, Red, up.key, N(c.parent, Black, c.key, t, c.sibling), up.sibling)), whole);
    } else {
      PlugInorder(up.up, RotateLeft(N(up.parent, Red, up.key, up.sibling, N(c.parent, Black, c.key, c.sibling, t))), whole);
    }
  }

  /** Case 2.1 keeps the in-order sequence: it only recolours the
      grandparent, the parent and the uncle. */
  lemma RecolorInorder(c: Ctx, up: Ctx, f: Tree, f': Tree)
    requires !up.Top? && up.sibling.N? && Inorder(f) == Inorder(f')
    ensures Inorder(Plug(c, Fill(up.(color := Red, sibling := up.sibling.(color := Black)), f')))
         == Inorder(Plug(c, Fill(up, f)))
  {
    PlugInorder(c, Fill(up.(color := Red, sibling := up.sibling.(color := Black)), f'), Fill(up, f));
  }

  /** The repair keeps the key set of the whole tree. */
  lemma FixUpKeys(c: Ctx, t: Tree)
    requires t.N? && Repairable(c)
    ensures Keys(FixUp(c, t)) == Keys(Plug(c, t))
  {
    FixUpInorder(c, t);
    SameInorder(FixUp(c, t), Plug(c, t));
  }

  /** Whatever the rest of the tree looks like, the repair leaves a black root. */
  lemma {:induction false} FixUpRootBlack(c: Ctx, t: Tree)
    requires t.N?
    requires c.Top? || OuterColor(c) == Black
    ensures ColorOf(FixUp(c, t)) == Black
    decreases 2 * Depth(c) + (if Inner(c) then 1 else 0)
  {
    if c.Top? {
    } else if c.color == Black {
      PlugColor(c, t);
    } else {
      var up := c.up;
      var uncle := up.sibling;
      assert Depth(c) == Depth(up.up) + 2;
      if ColorOf(uncle) == Red {
        FixUpRootBlack(up.up, Fill(up.(color := Red, sibling := uncle.(color := Black)), Fill(c.(color := Black), t)));
      } else if up.HoleLeft? && c.HoleRight? {
        FixUpRootBlack(HoleLeft(t.node, t.color, t.key, t.right, up), N(c.parent, c.color, c.key, c.sibling, t.left));
      } else if up.HoleRight? && c.HoleLeft? {
        FixUpRootBlack(HoleRight(t.node, t.color, t.key, t.left, up), N(c.parent, c.color, c.key, t.right, c.sibling));
      } else {
        var g := if up.HoleLeft?
          then N(up.parent, Red, up.key, N(c.parent, Black, c.key, t, c.sibling), up.sibling)
          else N(up.parent, Red, up.key, up.sibling, N(c.parent, Black, c.key, c.sibling, t));
        var rotated := if up.HoleLeft? then RotateRight(g) else RotateLeft(g);
        if !up.up.Top? {
          PlugColor(up.up, rotated);
        }
      }
    }
  }

  /** Case 2.1 keeps the insertion invariant two levels up: the recoloured
      grandparent is a red subtree with black height one more, and the
      context above it is unchanged. */
  lemma RecolorKeepsInvariant(c: Ctx, t: Tree)
    requires t.N? && t.color == Red && NoRedRed(t) && Balanced(t)
    requires CtxNoRedRed(c, Black) && CtxBalanced(c, BlackHeight(t))
    requires !c.Top? && c.color == Red && !c.up.Top? && ColorOf(c.up.sibling) == Red
    ensures var g := Fill(c.up.(color := Red, sibling := c.up.sibling.(color := Black)), Fill(c.(color := Black), t));
      && g.N? && g.color == Red && NoRedRed(g) && Balanced(g)
      && CtxNoRedRed(c.up.up, Black) && CtxBalanced(c.up.up, BlackHeight(g))
  {
    var h := BlackHeight(t);
    var up := c.up;
    var uncle := up.sibling;
    var p' := Fill(c.(color := Black), t);
    var g := Fill(up.(color := Red, sibling := uncle.(color := Black)), p');
    var u' := uncle.(color := Black);
    assert up.color == Black;
    assert CtxBalanced(up, h);
    assert Balanced(c.sibling) && BlackHeight(c.sibling) == h;
    assert Balanced(p') && BlackHeight(p') == h + 1;
    assert Balanced(uncle) && BlackHeight(uncle) == h;
    assert Balanced(u') && BlackHeight(u') == h + 1;
    assert NoRedRed(p') && NoRedRed(u');
    assert NoRedRed(g) && Balanced(g) && BlackHeight(g) == h + 1;
  }

  /** Case 2.3 ends the repair with a valid red-black tree: the rotated
      grandparent is black, keeps the black height, and has no red-red edge. */
  lemma RotateKeepsInvariant(c: Ctx, t: Tree)
    requires t.N? && t.color == Red && NoRedRed(t) && Balanced(t)
    requires CtxNoRedRed(c, Black) && CtxBalanced(c, BlackHeight(t))
    requires !c.Top? && c.color == Red && !c.up.Top? && ColorOf(c.up.sibling) == Black
    requires c.HoleLeft? == c.up.HoleLeft?
    ensures var up := c.up;
      NoRedRed(Plug(up.up, if up.HoleLeft?
        then RotateRight(N(up.parent, Red, up.key, N(c.parent, Black, c.key, t, c.sibling), up.sibling))
        else RotateLeft(N(up.parent, Red, up.key, up.sibling, N(c.parent, Black, c.key, c.sibling, t)))))
    ensures var up := c.up;
      Balanced(Plug(up.up, if up.HoleLeft?
        then RotateRight(N(up.parent, Red, up.key, N(c.parent, Black, c.key, t, c.sibling), up.sibling))
        else RotateLeft(N(up.parent, Red, up.key, up.sibling, N(c.parent, Black, c.key, c.sibling, t)))))
  {
    var h := BlackHeight(t);
    var up := c.up;
    var uncle := up.sibling;
    var s := c.sibling;
    var g := if up.HoleLeft?
      then N(up.parent, Red, up.key, N(c.parent, Black, c.key, t, s), uncle)
      else N(up.parent, Red, up.key, uncle, N(c.parent, Black, c.key, s, t));
    var rotated := if up.HoleLeft? then RotateRight(g) else RotateLeft(g);
    assert up.color == Black;
    assert CtxBalanced(up, h);
    assert BlackHeight(s) == h && BlackHeight(uncle) == h;
    assert NoRedRed(s) && NoRedRed(uncle);
    assert ColorOf(s) == Black && ColorOf(uncle) == Black;
    if up.HoleLeft? {
      assert rotated == N(c.parent, Black, c.key, t, N(up.parent, Red, up.key, s, uncle));
    } else {
      assert rotated == N(c.parent, Black, c.key, N(up.parent, Red, up.key, uncle, s), t);
    }
    assert NoRedRed(rotated) && Balanced(rotated);
    assert BlackHeight(t) == h && ColorOf(t) == Red;
    assert BlackHeight(rotated) == h + 1;
    PlugNoRedRed(up.up, rotated);
    PlugBalanced(up.up, rotated);
  }

  /** The insertion invariant: a red subtree without inner violations whose
      only possible violation is a red parent, in a context that is otherwise
      a valid red-black tree. FixUp turns it into a valid red-black tree. */
  lemma {:induction false} FixUpValid(c: Ctx, t: Tree)
    requires t.N? && t.color == Red && NoRedRed(t) && Balanced(t)
    requires CtxNoRedRed(c, Black) && CtxBalanced(c, BlackHeight(t))
    requires c.Top? || OuterColor(c) == Black
    ensures IsRB(FixUp(c, t))
    decreases 2 * Depth(c) + (if Inner(c) then 1 else 0)
  {
    FixUpRootBlack(c, t);
    if c.Top? {
    } else if c.color == Black {
      PlugNoRedRed(c, t);
      PlugBalanced(c, t);
    } else {
      FixUpRedParent(c, t);
      var up := c.up;
      assert up.up.Top? || OuterColor(up.up) == OuterColor(c);
      if ColorOf(up.sibling) == Red {
        RecolorKeepsInvariant(c, t);
        FixUpValid(up.up, Fill(up.(color := Red, sibling := up.sibling.(color := Black)), Fill(c.(color := Black), t)));
      } else if up.HoleLeft? && c.HoleRight? {
        var t' := N(c.parent, c.color, c.key, c.sibling, t.left);
        assert BlackHeight(t') == BlackHeight(t);
        FixUpValid(HoleLeft(t.node, t.color, t.key, t.right, up), t');
      } else if up.HoleRight? && c.HoleLeft? {
        var t' := N(c.parent, c.color, c.key, t.right, c.sibling);
        assert BlackHeight(t') == BlackHeight(t);
        FixUpValid(HoleRight(t.node, t.color, t.key, t.left, up), t');
      } else {
        RotateKeepsInvariant(c, t);
      }
    }
  }

  /** RBTree::InsertRecursively on the subtree t in the hole of c: attach a
      red leaf where the search for k ends, then repair from there. The
      result holds the nodes of the whole tree and the new one. */
  function RBInsertIn(c: Ctx, t: Tree, n: Node, k: int): (r: Tree)
    requires !Find(t, k).N? && Repairable(Descend(c, t, k))
    ensures Nodes(r) == Nodes(Plug(c, t)) + {n}
  {
    var d := Descend(c, t, k);
    DescendPlug(c, t, n, k);
    PlugParts(c, t);
    PlugParts(c, InsertRec(t, n, k));
    FixUp(d, Leaf(n, k))
  }

  /** One step down the search path of InsertRecursively: inserting into
      the child subtree on k's side, with the parent moved into the context,
      is inserting into t. */
  lemma InsertStep(c: Ctx, t: Tree, c': Ctx, t': Tree, n: Node, k: int)
    requires t.N?
    requires || (k < t.key && c' == HoleLeft(t.node, t.color, t.key, t.right, c) && t' == t.left)
             || (t.key < k && c' == HoleRight(t.node, t.color, t.key, t.left, c) && t' == t.right)
    ensures Plug(c', t') == Plug(c, t) && Find(t', k) == Find(t, k)
    ensures !Find(t, k).N? ==> Plug(c', InsertRec(t', n, k)) == Plug(c, InsertRec(t, n, k))
    ensures !Find(t, k).N? ==> Descend(c', t', k) == Descend(c, t, k)
    ensures !Find(t, k).N? && Repairable(Descend(c, t, k)) ==> RBInsertIn(c', t', n, k) == RBInsertIn(c, t, n, k)
  {
  }

  /** The end of the search path of InsertRecursively: t's child on k's
      side is empty, so the leaf goes into the hole d there. */
  lemma AttachStep(c: Ctx, t: Tree, d: Ctx, n: Node, k: int)
    requires t.N?
    requires || (k < t.key && t.left.Nil? && d == HoleLeft(t.node, t.color, t.key, t.right, c))
             || (t.key < k && t.right.Nil? && d == HoleRight(t.node, t.color, t.key, t.left, c))
    ensures Plug(d, Nil) == Plug(c, t) && !Find(t, k).N? && Descend(c, t, k) == d
    ensures Plug(d, Leaf(n, k)) == Plug(c, InsertRec(t, n, k))
    ensures Repairable(d) ==> RBInsertIn(c, t, n, k) == FixUp(d, Leaf(n, k))
  {
    assert Fill(d, Nil) == t;
    assert Fill(d, Leaf(n, k)) == InsertRec(t, n, k);
  }

  /** The red-black Insert on values: attach a red leaf, then repair. Its
      key set and node set grow by the new key and node. */
  function RBInsert(t: Tree, n: Node, k: int): (r: Tree)
    requires !Find(t, k).N? && Repairable(Descend(Top, t, k))
    ensures Nodes(r) == Nodes(t) + {n}
    ensures Keys(r) == Keys(t) + {k}
  {
    var d := Descend(Top, t, k);
    DescendPlug(Top, t, n, k);
    FixUpKeys(d, Leaf(n, k));
    RBInsertIn(Top, t, n, k)
  }

  /** Inserting a new key into a valid red-black tree yields a valid red-black
      tree with the same in-order sequence as the plain BST insertion. */
  lemma RBInsertCorrect(t: Tree, n: Node, k: int)
    requires IsRB(t) && !Find(t, k).N?
    ensures Repairable(Descend(Top, t, k))
    ensures IsRB(RBInsert(t, n, k))
    ensures Inorder(RBInsert(t, n, k)) == Inorder(InsertRec(t, n, k))
  {
    var c := Descend(Top, t, k);
    DescendPlug(Top, t, n, k);
    if !c.Top? { PlugColor(c, Nil); }
    PlugNoRedRed(c, Nil);
    PlugBalanced(c, Nil);
    FixUpValid(c, Leaf(n, k));
    FixUpInorder(c, Leaf(n, k));
  }

  /** A tree with a black root can take any new key (the repair never meets
      a red root), and the red-black Insert leaves a black root, whatever
      the rest of the tree looks like. */
  lemma RBInsertRootBlack(t: Tree, n: Node, k: int)
    requires !Find(t, k).N? && ColorOf(t) == Black
    ensures Repairable(Descend(Top, t, k)) && ColorOf(RBInsert(t, n, k)) == Black
  {
    var c := Descend(Top, t, k);
    DescendPlug(Top, t, n, k);
    if !c.Top? { PlugColor(c, Nil); }
    FixUpRootBlack(c, Leaf(n, k));
  }

  /** In any tree, the red-black Insert puts the new key in the same in-order
      place as the plain BST insertion. */
  lemma RBInsertInorder(t: Tree, n: Node, k: int)
    requires !Find(t, k).N? && Repairable(Descend(Top, t, k))
    ensures Inorder(RBInsert(t, n, k)) == Inorder(InsertRec(t, n, k))
  {
    var c := Descend(Top, t, k);
    DescendPlug(Top, t, n, k);
    FixUpInorder(c, Leaf(n, k));
  }

  // ---------------------------------------------------------- height bound

  function Pow2(n: nat): (r: nat)
    ensures r >= 1
  {
    if n == 0 then 1 else 2 * Pow2(n - 1)
  }

  lemma {:induction false} Pow2Monotone(a: nat, b: nat)
    requires a <= b
    ensures Pow2(a) <= Pow2(b)
    decreases b
  {
    if a < b {
      Pow2Monotone(a, b - 1);
    }
  }

  lemma {:induction false} HeightVsBlackHeight(t: Tree)
    requires NoRedRed(t) && Balanced(t)
    ensures Height(t) <= 2 * BlackHeight(t) + (if ColorOf(t) == Red then 1 else 0)
  {
    if t.N? {
      HeightVsBlackHeight(t.left);
      HeightVsBlackHeight(t.right);
    }
  }

  lemma {:induction false} SizeVsBlackHeight(t: Tree)
    requires Balanced(t)
    ensures Pow2(BlackHeight(t)) <= Size(t) + 1
  {
    if t.N? {
      SizeVsBlackHeight(t.left);
      SizeVsBlackHeight(t.right);
    }
  }

  lemma {:induction false} Pow2Add(a: nat, b: nat)
    ensures Pow2(a + b) == Pow2(a) * Pow2(b)
    decreases a
  {
    if a > 0 {
      Pow2Add(a - 1, b);
      var x, y := Pow2(a - 1), Pow2(b);
      assert Pow2(a + b) == 2 * Pow2(a - 1 + b) == 2 * (x * y);
      assert Pow2(a) == 2 * x;
      assert 2 * (x * y) == (2 * x) * y;
    }
  }

  function Square(n: nat): nat {
    n * n
  }

  lemma SquareMonotone(x: nat, y: nat)
    requires x <= y
    ensures Square(x) <= Square(y)
  {
    assert x * x <= x * y;
    assert x * y <= y * y;
  }

  /** The largest b with 2^b <= n. */
  function Log2(n: nat): nat
    requires n >= 1
  {
    if n < 2 then 0 else 1 + Log2(n / 2)
  }

  lemma {:induction false} Log2Bound(b: nat, n: nat)
    requires 1 <= n && Pow2(b) <= n
    ensures b <= Log2(n)
    decreases b
  {
    if b > 0 {
      Log2Bound(b - 1, n / 2);
    }
  }

  /** The arithmetic of the height bound: a height h of at most twice a
      black height b with 2^b <= n gives 2^h <= n^2 and h <= 2 log2(n). */
  lemma Pow2Squared(h: nat, b: nat, n: nat)
    requires h <= 2 * b && Pow2(b) <= n
    ensures Pow2(h) <= Square(n) && h <= 2 * Log2(n)
  {
    Pow2Monotone(h, b + b);
    Pow2Add(b, b);
    SquareMonotone(Pow2(b), n);
    Log2Bound(b, n);
  }

  /** A valid red-black tree of n nodes has height at most 2 log2(n + 1):
      no path is more than twice the black height, and the black height h
      needs at least 2^h - 1 nodes; equivalently 2^height <= (n + 1)^2. */
  lemma RBHeightBound(t: Tree)
    requires IsRB(t)
    ensures Height(t) <= 2 * BlackHeight(t) && Pow2(BlackHeight(t)) <= Size(t) + 1
    ensures Height(t) <= 2 * Log2(Size(t) + 1)
    ensures Pow2(Height(t)) <= Square(Size(t) + 1)
  {
    HeightVsBlackHeight(t);
    SizeVsBlackHeight(t);
    Pow2Squared(Height(t), BlackHeight(t), Size(t) + 1);
  }

  // ------------------------------------------------ delete does no repair

  /** Deleting a black root whose only child is red leaves a red root. */
  lemma DeleteCanLeaveRedRoot(a: Node, b: Node)
    requires a != b
    ensures var t := N(a, Black, 1, Nil, N(b, Red, 2, Nil, Nil));
      && IsRB(t) && Ordered(t) && Distinct(t)
      && DeleteKey(t, 1) == N(b, Red, 2, Nil, Nil)
      && !IsRB(DeleteKey(t, 1))
  {
    assert Keys(N(b, Red, 2, Nil, Nil)) == {2};
  }

  /** Deleting a black leaf leaves paths with different black counts. */
  lemma DeleteCanUnbalance(a: Node, b: Node, c: Node)
    requires a != b && b != c && a != c
    ensures var t := N(a, Black, 2, N(b, Black, 1, Nil, Nil), N(c, Black, 3, Nil, Nil));
      && IsRB(t) && Ordered(t) && Distinct(t)
      && !Balanced(DeleteKey(t, 1))
  {
    assert Keys(N(b, Black, 1, Nil, Nil)) == {1};
    assert Keys(N(c, Black, 3, Nil, Nil)) == {3};
  }

  /** Insert 1, insert 2, delete 1, insert 3: the delete leaves the red
      node 2 as the root, and the search for 3 ends below it, where
      InsertFixUp finds a red parent without a grandparent. */
  lemma InsertAfterDeleteFaults(a: Node, b: Node)
    requires a != b
    ensures RBInsert(Nil, a, 1) == N(a, Black, 1, Nil, Nil)
    ensures RBInsert(N(a, Black, 1, Nil, Nil), b, 2) == N(a, Black, 1, Nil, N(b, Red, 2, Nil, Nil))
    ensures var t := N(a, Black, 1, Nil, N(b, Red, 2, Nil, Nil));
      && IsRB(t)
      && DeleteKey(t, 1) == N(b, Red, 2, Nil, Nil)
      && !Find(DeleteKey(t, 1), 3).N?
      && Descend(Top, DeleteKey(t, 1), 3) == HoleRight(b, Red, 2, Nil, Top)
      && !Repairable(Descend(Top, DeleteKey(t, 1), 3))
  {
    var d := HoleRight(a, Black, 1, Nil, Top);
    assert Descend(Top, N(a, Black, 1, Nil, Nil), 2) == d;
    assert FixUp(d, Leaf(b, 2)) == Plug(d, Leaf(b, 2));
  }
}
