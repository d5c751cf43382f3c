/** The abstract value of the pointer trees in binary_tree/bt.hpp: a tree of
    vertices, each recording the node object that stores it, its colour, its
    key and its two subtrees; a zipper context locating one subtree inside the
    whole tree; and the plain search-tree operations stated on these values. */
module Trees {
  import opened TreeNodes

  datatype Tree = Nil | N(node: Node, color: Color, key: int, left: Tree, right: Tree)

  /** The path from a hole up to the root: HoleLeft means the hole is the left
      child of `parent`, whose other child is `sibling`; `up` leads on towards
      the root. */
  datatype Ctx =
    | Top
    | HoleLeft(parent: Node, color: Color, key: int, sibling: Tree, up: Ctx)
    | HoleRight(parent: Node, color: Color, key: int, sibling: Tree, up: Ctx)

  /** The node a pointer to this subtree holds (null for an empty one). */
  function Root(t: Tree): Node? {
    if t.Nil? then null else t.node
  }

  /** Only the empty tree has a null root. */
  lemma RootNull(t: Tree)
    ensures Root(t) == null <==> t.Nil?
  {
  }

  /** The nodes of a tree value are objects already allocated, so a fresh
      node is never one of them. */
  lemma {:induction false} NodesAllocated(t: Tree)
    ensures forall n :: n in Nodes(t) ==> allocated(n)
  {
    if t.N? {
      NodesAllocated(t.left);
      NodesAllocated(t.right);
    }
  }

  /** Absent children count as black. */
  function ColorOf(t: Tree): Color {
    if t.Nil? then Black else t.color
  }

  /** A freshly attached node: red (RBTreeNode's default), no children. */
  function Leaf(n: Node, k: int): Tree {
    N(n, Red, k, Nil, Nil)
  }

  function Nodes(t: Tree): set<Node> {
    match t
    case Nil => {}
    case N(n, _, _, l, r) => {n} + Nodes(l) + Nodes(r)
  }

  function Keys(t: Tree): set<int> {
    match t
    case Nil => {}
    case N(_, _, k, l, r) => Keys(l) + {k} + Keys(r)
  }

  function Inorder(t: Tree): seq<int> {
    match t
    case Nil => []
    case N(_, _, k, l, r) => Inorder(l) + [k] + Inorder(r)
  }

  function Size(t: Tree): nat {
    match t
    case Nil => 0
    case N(_, _, _, l, r) => Size(l) + 1 + Size(r)
  }

  /** GetHeightInternal: 0 for an empty tree, one more than the taller child otherwise. */
  function Height(t: Tree): (h: nat)
    ensures h == 0 <==> t.Nil?
  {
    match t
    case Nil => 0
    case N(_, _, _, l, r) =>
      var hl, hr := Height(l), Height(r);
      (if hl >= hr then hl else hr) + 1
  }

  /** A path has no more nodes than the tree, and only the empty tree has
      height 0. */
  lemma {:induction false} HeightSize(t: Tree)
    ensures Height(t) <= Size(t)
    ensures Height(t) == 0 <==> t.Nil?
  {
    if t.N? {
      HeightSize(t.left);
      HeightSize(t.right);
    }
  }

  /** BST order: every key of the left subtree is smaller, every key of the
      right subtree larger. */
  predicate Ordered(t: Tree) {
    match t
    case Nil => true
    case N(_, _, k, l, r) =>
      && (forall x :: x in Keys(l) ==> x < k)
      && (forall x :: x in Keys(r) ==> k < x)
      && Ordered(l) && Ordered(r)
  }

  /** No node object occurs twice: the links form a tree, not a DAG or a cycle. */
  predicate Distinct(t: Tree) {
    match t
    case Nil => true
    case N(n, _, _, l, r) =>
      && n !in Nodes(l) && n !in Nodes(r) && Nodes(l) !! Nodes(r)
      && Distinct(l) && Distinct(r)
  }

  predicate Sorted(s: seq<int>) {
    forall i, j :: 0 <= i < j < |s| ==> s[i] < s[j]
  }

  // ---------------------------------------------------------------- contexts

  /** The parent's subtree with the hole filled by t. */
  function Fill(c: Ctx, t: Tree): Tree
    requires !c.Top?
  {
    if c.HoleLeft? then N(c.parent, c.color, c.key, t, c.sibling)
    else N(c.parent, c.color, c.key, c.sibling, t)
  }

  /** The whole tree with the hole filled by t. */
  function Plug(c: Ctx, t: Tree): Tree
    decreases c
  {
    if c.Top? then t else Plug(c.up, Fill(c, t))
  }

  function CtxNodes(c: Ctx): set<Node> {
    if c.Top? then {} else {c.parent} + Nodes(c.sibling) + CtxNodes(c.up)
  }

  predicate CtxDistinct(c: Ctx) {
    c.Top? ||
    (&& c.parent !in Nodes(c.sibling) && c.parent !in CtxNodes(c.up)
     && Nodes(c.sibling) !! CtxNodes(c.up)
     && Distinct(c.sibling) && CtxDistinct(c.up))
  }

  /** The node whose child pointer refers to the hole (null at the root). */
  function CtxParent(c: Ctx): Node? {
    if c.Top? then null else c.parent
  }

  /** The root node of any tree plugged into a non-empty context. */
  function OuterNode(c: Ctx): Node
    requires !c.Top?
  {
    if c.up.Top? then c.parent else OuterNode(c.up)
  }

  function Depth(c: Ctx): nat {
    if c.Top? then 0 else 1 + Depth(c.up)
  }

  /** The context d placed inside the hole of c. */
  function Append(d: Ctx, c: Ctx): Ctx {
    match d
    case Top => c
    case HoleLeft(p, col, k, s, up) => HoleLeft(p, col, k, s, Append(up, c))
    case HoleRight(p, col, k, s, up) => HoleRight(p, col, k, s, Append(up, c))
  }

  /** A context that only ever descends to the right. */
  predicate RightSpine(d: Ctx) {
    d.Top? || (d.HoleRight? && RightSpine(d.up))
  }

  lemma {:induction false} PlugParts(c: Ctx, t: Tree)
    ensures Nodes(Plug(c, t)) == CtxNodes(c) + Nodes(t)
    ensures Distinct(Plug(c, t)) <==> CtxDistinct(c) && Distinct(t) && CtxNodes(c) !! Nodes(t)
    ensures Root(Plug(c, t)) == if c.Top? then Root(t) else OuterNode(c)
    ensures Size(Plug(c, t)) >= Size(t)
    decreases c
  {
    if !c.Top? {
      PlugParts(c.up, Fill(c, t));
    }
  }

  lemma {:induction false} PlugAppend(d: Ctx, c: Ctx, t: Tree)
    ensures Plug(Append(d, c), t) == Plug(c, Plug(d, t))
  {
    if !d.Top? {
      PlugAppend(d.up, c, Fill(d, t));
    }
  }

  /** Only the in-order sequence of the plugged subtree matters to the
      in-order sequence of the whole tree. */
  lemma {:induction false} PlugInorder(c: Ctx, t1: Tree, t2: Tree)
    requires Inorder(t1) == Inorder(t2)
    ensures Inorder(Plug(c, t1)) == Inorder(Plug(c, t2))
    decreases c
  {
    if !c.Top? {
      PlugInorder(c.up, Fill(c, t1), Fill(c, t2));
    }
  }

  // ------------------------------------------------------- order and in-order

  lemma {:induction false} KeysInorder(t: Tree)
    ensures forall x :: x in Keys(t) <==> x in Inorder(t)
  {
    if t.N? {
      KeysInorder(t.left);
      KeysInorder(t.right);
    }
  }

  lemma SortedJoin(a: seq<int>, k: int, b: seq<int>)
    requires Sorted(a) && Sorted(b)
    requires forall x :: x in a ==> x < k
    requires forall y :: y in b ==> k < y
    ensures Sorted(a + [k] + b)
  {
    var s := a + [k] + b;
    forall i, j | 0 <= i < j < |s| ensures s[i] < s[j] {
      if j < |a| {
        assert s[i] == a[i] && s[j] == a[j];
      } else if i < |a| {
        assert s[i] == a[i] && a[i] in a;
        if j > |a| { assert s[j] == b[j - |a| - 1]; assert s[j] in b; }
      } else if i == |a| {
        assert s[j] == b[j - |a| - 1];
        assert s[j] in b;
      } else {
        assert s[i] == b[i - |a| - 1] && s[j] == b[j - |a| - 1];
      }
    }
  }

  lemma SortedParts(a: seq<int>, k: int, b: seq<int>)
    requires Sorted(a + [k] + b)
    ensures Sorted(a) && Sorted(b)
    ensures forall x :: x in a ==> x < k
    ensures forall y :: y in b ==> k < y
  {
    var s := a + [k] + b;
    forall i, j | 0 <= i < j < |a| ensures a[i] < a[j] {
      assert a[i] == s[i] && a[j] == s[j];
    }
    forall i, j | 0 <= i < j < |b| ensures b[i] < b[j] {
      assert b[i] == s[|a| + 1 + i] && b[j] == s[|a| + 1 + j];
    }
    forall x | x in a ensures x < k {
      var i :| 0 <= i < |a| && a[i] == x;
      assert s[i] == x && s[|a|] == k;
    }
    forall y | y in b ensures k < y {
      var j :| 0 <= j < |b| && b[j] == y;
      assert s[|a| + 1 + j] == y && s[|a|] == k;
    }
  }

  lemma SortedSplit(a: seq<int>, k: int, b: seq<int>)
    ensures Sorted(a + [k] + b) <==>
      Sorted(a) && Sorted(b) && (forall x :: x in a ==> x < k) && (forall y :: y in b ==> k < y)
  {
    if Sorted(a) && Sorted(b) && (forall x :: x in a ==> x < k) && (forall y :: y in b ==> k < y) {
      SortedJoin(a, k, b);
    }
    if Sorted(a + [k] + b) {
      SortedParts(a, k, b);
    }
  }

  lemma {:induction false} OrderedIsSorted(t: Tree)
    ensures Ordered(t) <==> Sorted(Inorder(t))
  {
    if t.N? {
      OrderedIsSorted(t.left);
      OrderedIsSorted(t.right);
      KeysInorder(t.left);
      KeysInorder(t.right);
      SortedSplit(Inorder(t.left), t.key, Inorder(t.right));
    }
  }

  /** Trees with the same in-order sequence have the same keys and are
      ordered together. */
  lemma SameInorder(t1: Tree, t2: Tree)
    requires Inorder(t1) == Inorder(t2)
    ensures Keys(t1) == Keys(t2)
    ensures Ordered(t1) <==> Ordered(t2)
  {
    KeysInorder(t1);
    KeysInorder(t2);
    forall x ensures x in Keys(t1) <==> x in Keys(t2) {
      assert x in Keys(t1) <==> x in Inorder(t1);
    }
    OrderedIsSorted(t1);
    OrderedIsSorted(t2);
  }

  // ------------------------------------------------------------------ search

  /** SearchRecursively: the subtree whose root holds k, found by descending
      along the comparisons; Nil when the descent falls off the tree. */
  function Find(t: Tree, k: int): (r: Tree)
    ensures r.N? ==> r.key == k && r.node in Nodes(t) && k in Keys(t)
  {
    match t
    case Nil => Nil
    case N(_, _, key, l, rt) =>
      if key == k then t
      else if key > k then Find(l, k)
      else Find(rt, k)
  }

  /** In an ordered tree the search succeeds exactly for the keys present. */
  lemma {:induction false} FindIffKey(t: Tree, k: int)
    requires Ordered(t)
    ensures Find(t, k).N? <==> k in Keys(t)
  {
    if t.N? && t.key != k {
      if t.key > k { FindIffKey(t.left, k); } else { FindIffKey(t.right, k); }
    }
  }

  // ------------------------------------------------------------------ insert

  /** The context of the empty slot where InsertRecursively attaches a key
      that the search does not find: the slot lies in the same tree, at most
      the height of t below c. */
  function Descend(c: Ctx, t: Tree, k: int): (r: Ctx)
    requires !Find(t, k).N?
    ensures Plug(r, Nil) == Plug(c, t)
    ensures Depth(r) <= Depth(c) + Height(t)
    decreases t
  {
    match t
    case Nil => c
    case N(n, col, key, l, rt) =>
      if k < key then Descend(HoleLeft(n, col, key, rt, c), l, k)
      else Descend(HoleRight(n, col, key, l, c), rt, k)
  }

  /** The plain BST insertion of InsertRecursively: the new node becomes a leaf
      at the end of the search path. */
  function InsertRec(t: Tree, n: Node, k: int): (r: Tree)
    requires !Find(t, k).N?
    ensures Keys(r) == Keys(t) + {k}
    ensures Nodes(r) == Nodes(t) + {n}
    ensures Find(r, k) == Leaf(n, k)
    ensures n !in Nodes(t) && Distinct(t) ==> Distinct(r)
  {
    match t
    case Nil => Leaf(n, k)
    case N(m, col, key, l, rt) =>
      if k < key then N(m, col, key, InsertRec(l, n, k), rt)
      else N(m, col, key, l, InsertRec(rt, n, k))
  }

  lemma {:induction false} DescendPlug(c: Ctx, t: Tree, n: Node, k: int)
    requires !Find(t, k).N?
    ensures Plug(Descend(c, t, k), Nil) == Plug(c, t)
    ensures Plug(Descend(c, t, k), Leaf(n, k)) == Plug(c, InsertRec(t, n, k))
    decreases t
  {
    if t.N? {
      if k < t.key {
        DescendPlug(HoleLeft(t.node, t.color, t.key, t.right, c), t.left, n, k);
      } else {
        DescendPlug(HoleRight(t.node, t.color, t.key, t.left, c), t.right, n, k);
      }
    }
  }

  /** Inserting an absent key keeps BST order. */
  lemma {:induction false} InsertOrdered(t: Tree, n: Node, k: int)
    requires Ordered(t) && !Find(t, k).N?
    ensures Ordered(InsertRec(t, n, k))
  {
    if t.N? {
      if k < t.key { InsertOrdered(t.left, n, k); } else { InsertOrdered(t.right, n, k); }
    }
  }

  // ------------------------------------------------------------------ delete

  /** The key of the rightmost node: where the predecessor loop stops. */
  function Max(t: Tree): (r: int)
    requires t.N?
    ensures r in Keys(t)
  {
    if t.right.Nil? then t.key else Max(t.right)
  }

  /** The tree with its rightmost node spliced out (its left child promoted). */
  function DeleteMax(t: Tree): (r: Tree)
    requires t.N?
    ensures Keys(t) == Keys(r) + {Max(t)}
    ensures Nodes(r) <= Nodes(t)
    ensures Distinct(t) ==> Distinct(r)
  {
    if t.right.Nil? then t.left
    else N(t.node, t.color, t.key, t.left, DeleteMax(t.right))
  }

  /** DeleteRecursively: a leaf is unlinked, a node with one child is replaced
      by that child, and a node with two children keeps its place and colour,
      takes its in-order predecessor's key and the predecessor is spliced out. */
  function DeleteKey(t: Tree, k: int): (r: Tree)
    ensures Nodes(r) <= Nodes(t)
    ensures Distinct(t) ==> Distinct(r)
    ensures !Find(t, k).N? ==> r == t
  {
    match t
    case Nil => Nil
    case N(n, col, key, l, rt) =>
      if key > k then N(n, col, key, DeleteKey(l, k), rt)
      else if key < k then N(n, col, key, l, DeleteKey(rt, k))
      else if l.Nil? && rt.Nil? then Nil
      else if rt.Nil? then l
      else if l.Nil? then rt
      else N(n, col, Max(l), DeleteMax(l), rt)
  }

  /** In an ordered tree the rightmost key is the largest. */
  lemma {:induction false} MaxIsLargest(t: Tree)
    requires t.N? && Ordered(t)
    ensures Max(t) in Keys(t)
    ensures forall x :: x in Keys(t) ==> x <= Max(t)
  {
    if t.right.N? {
      MaxIsLargest(t.right);
    }
  }

  lemma {:induction false} DeleteMaxOrdered(t: Tree)
    requires t.N? && Ordered(t)
    ensures Ordered(DeleteMax(t))
    ensures Keys(DeleteMax(t)) == Keys(t) - {Max(t)}
  {
    MaxIsLargest(t);
    if t.right.N? {
      DeleteMaxOrdered(t.right);
    }
  }

  /** A node with two children that takes its predecessor's key, the
      predecessor spliced out, stays ordered and loses exactly its old key. */
  lemma PredecessorOrdered(t: Tree)
    requires t.N? && t.left.N? && t.right.N? && Ordered(t)
    ensures var r := N(t.node, t.color, Max(t.left), DeleteMax(t.left), t.right);
      Ordered(r) && Keys(r) == Keys(t) - {t.key}
  {
    var l := t.left;
    MaxIsLargest(l);
    DeleteMaxOrdered(l);
    var m := Max(l);
    var r := N(t.node, t.color, m, DeleteMax(l), t.right);
    assert forall x :: x in Keys(DeleteMax(l)) ==> x < m;
    assert forall x :: x in Keys(t.right) ==> m < x;
    assert Ordered(r);
    assert t.key !in Keys(l) && t.key !in Keys(t.right);
    assert Keys(r) == Keys(l) + Keys(t.right);
  }

  /** Deleting removes exactly the key and keeps BST order. */
  lemma {:induction false} DeleteOrdered(t: Tree, k: int)
    requires Ordered(t)
    ensures Ordered(DeleteKey(t, k))
    ensures Keys(DeleteKey(t, k)) == Keys(t) - {k}
  {
    if t.N? {
      var n, col, key, l, rt := t.node, t.color, t.key, t.left, t.right;
      if key > k {
        DeleteOrdered(l, k);
        assert DeleteKey(t, k) == N(n, col, key, DeleteKey(l, k), rt);
      } else if key < k {
        DeleteOrdered(rt, k);
        assert DeleteKey(t, k) == N(n, col, key, l, DeleteKey(rt, k));
      } else if l.N? && rt.N? {
        PredecessorOrdered(t);
      }
    }
  }

  /** Along a right spine the rightmost key and its removal are those of the
      subtree in the hole. */
  lemma {:induction false} SpineMax(d: Ctx, x: Tree)
    requires RightSpine(d) && x.N?
    ensures Plug(d, x).N?
    ensures Max(Plug(d, x)) == Max(x)
    ensures DeleteMax(Plug(d, x)) == Plug(d, DeleteMax(x))
    decreases d
  {
    if !d.Top? {
      SpineMax(d.up, Fill(d, x));
    }
  }

  /** One step down the search path of DeleteRecursively: deleting from the
      child subtree on k's side, with the parent moved into the context, is
      deleting from t. */
  lemma DeleteStep(c: Ctx, t: Tree, c': Ctx, t': Tree, k: int)
    requires t.N?
    requires || (k < t.key && c' == HoleLeft(t.node, t.color, t.key, t.right, c) && t' == t.left)
             || (t.key < k && c' == HoleRight(t.node, t.color, t.key, t.left, c) && t' == t.right)
    ensures Plug(c', t') == Plug(c, t) && Find(t', k) == Find(t, k) && Size(t') < Size(t)
    ensures Plug(c', DeleteKey(t', k)) == Plug(c, DeleteKey(t, k))
  {
  }

  /** The two-child case of DeleteRecursively: x is where the predecessor
      loop stops, at the end of the right spine d of t's left subtree. After
      t's node takes x's key, x sits in the hole of e, and deleting that key
      at x is deleting t's key from t. */
  lemma PredecessorStep(c: Ctx, t: Tree, d: Ctx, x: Tree)
    requires t.N? && t.left.N? && t.right.N?
    requires RightSpine(d) && x.N? && x.right.Nil? && Plug(d, x) == t.left
    ensures x.key == Max(t.left) && Size(x) < Size(t)
    ensures var e := Append(d, HoleLeft(t.node, t.color, x.key, t.right, c));
      && Plug(e, x) == Plug(c, t.(key := x.key))
      && Plug(e, DeleteKey(x, x.key)) == Plug(c, DeleteKey(t, t.key))
  {
    var cl := HoleLeft(t.node, t.color, x.key, t.right, c);
    SpineMax(d, x);
    PlugParts(d, x);
    PlugAppend(d, cl, x);
    PlugAppend(d, cl, DeleteMax(x));
    assert DeleteKey(x, x.key) == DeleteMax(x);
  }

  // --------------------------------------------------------------- rotations

  /** LeftRotate on values: P(F, V(R, X)) becomes V(P(F, R), X). */
  function RotateLeft(t: Tree): (r: Tree)
    requires t.N? && t.right.N?
    ensures r.N? && r.left.N?
    ensures Inorder(r) == Inorder(t)
    ensures Nodes(r) == Nodes(t)
    ensures Distinct(r) <==> Distinct(t)
  {
    var v := t.right;
    N(v.node, v.color, v.key, N(t.node, t.color, t.key, t.left, v.left), v.right)
  }

  /** RightRotate on values: P(F(D, K), V) becomes F(D, P(K, V)). */
  function RotateRight(t: Tree): (r: Tree)
    requires t.N? && t.left.N?
    ensures r.N? && r.right.N?
    ensures Inorder(r) == Inorder(t)
    ensures Nodes(r) == Nodes(t)
    ensures Distinct(r) <==> Distinct(t)
  {
    var f := t.left;
    N(f.node, f.color, f.key, f.left, N(t.node, t.color, t.key, f.right, t.right))
  }

  /** Rotating right at the node a left rotation promoted restores the shape,
      and the other way round. */
  lemma RotationsInverse(t: Tree)
    ensures t.N? && t.right.N? ==> RotateRight(RotateLeft(t)) == t
    ensures t.N? && t.left.N? ==> RotateLeft(RotateRight(t)) == t
  {
  }
}
