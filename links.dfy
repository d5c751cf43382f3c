/** How the node objects on the heap represent a tree value. Every node of
    the value is assigned the field values it must hold (key, colour, the two
    child links and the parent back-link); the heap represents the value when
    every node holds exactly those. */
module Links {
  import opened TreeNodes
  import opened Trees

  /** The contents of one node object. */
  datatype Fields = Fields(key: int, color: Color, left: Node?, right: Node?, parent: Node?)

  /** What every node of t must hold when t hangs from up. */
  function Info(t: Tree, up: Node?): (m: map<Node, Fields>)
    ensures m.Keys == Nodes(t)
    ensures t.N? ==> m[t.node] == Fields(t.key, t.color, Root(t.left), Root(t.right), up)
  {
    match t
    case Nil => map[]
    case N(n, col, k, l, r) =>
      (Info(l, n) + Info(r, n))[n := Fields(k, col, Root(l), Root(r), up)]
  }

  /** What every node of a context must hold when its hole holds child. */
  function CtxInfo(c: Ctx, child: Node?): (m: map<Node, Fields>)
    ensures m.Keys == CtxNodes(c)
  {
    match c
    case Top => map[]
    case HoleLeft(p, col, k, s, up) =>
      (Info(s, p) + CtxInfo(up, p))[p := Fields(k, col, child, Root(s), CtxParent(up))]
    case HoleRight(p, col, k, s, up) =>
      (Info(s, p) + CtxInfo(up, p))[p := Fields(k, col, Root(s), child, CtxParent(up))]
  }

  /** Every node in the domain of m holds what m says. */
  ghost predicate Agree(m: map<Node, Fields>)
    reads m.Keys
  {
    forall n :: n in m ==> FieldsOf(n) == m[n]
  }

  /** The contents of a node object as a value. */
  ghost function FieldsOf(n: Node): Fields
    reads n
  {
    Fields(n.key, n.color, n.left, n.right, n.parent)
  }

  /** The whole tree's assignment splits into the context's and the
      subtree's, which do not overlap. */
  lemma {:induction false} InfoPlug(c: Ctx, t: Tree)
    requires Distinct(Plug(c, t))
    ensures CtxNodes(c) !! Nodes(t)
    ensures Info(Plug(c, t), null) == CtxInfo(c, Root(t)) + Info(t, CtxParent(c))
    decreases c
  {
    PlugParts(c, t);
    if !c.Top? {
      var f := Fill(c, t);
      InfoPlug(c.up, f);
      PlugParts(c.up, f);
      assert CtxDistinct(c);
      var lhs := CtxInfo(c.up, c.parent) + Info(f, CtxParent(c.up));
      var rhs := CtxInfo(c, Root(t)) + Info(t, c.parent);
      assert lhs.Keys == rhs.Keys;
      var fi, ci := Info(f, CtxParent(c.up)), CtxInfo(c, Root(t));
      forall n | n in lhs
        ensures lhs[n] == rhs[n]
      {
        if n == c.parent {
          assert lhs[n] == fi[n] && rhs[n] == ci[n];
        } else if n in Nodes(t) {
          assert n !in Nodes(c.sibling) && n !in CtxNodes(c.up);
          assert lhs[n] == fi[n] == Info(t, c.parent)[n];
        } else if n in Nodes(c.sibling) {
          assert n !in CtxNodes(c.up);
          assert lhs[n] == fi[n] == Info(c.sibling, c.parent)[n];
          assert rhs[n] == ci[n] == Info(c.sibling, c.parent)[n];
        } else {
          assert lhs[n] == CtxInfo(c.up, c.parent)[n];
          assert rhs[n] == ci[n] == CtxInfo(c.up, c.parent)[n];
        }
      }
      assert lhs == rhs;
    }
  }

  /** Agreement with a union of disjoint assignments is agreement with both. */
  lemma AgreeUnion(m1: map<Node, Fields>, m2: map<Node, Fields>)
    requires m1.Keys !! m2.Keys
    ensures Agree(m1 + m2) <==> Agree(m1) && Agree(m2)
  {
    if Agree(m1 + m2) {
      forall n | n in m1
        ensures FieldsOf(n) == m1[n]
      {
        assert (m1 + m2)[n] == m1[n];
      }
    }
  }

  /** The heap represents Plug(c, t) exactly when it represents the context,
      with its hole pointing at t's root, and t, hanging from the hole's
      parent. */
  lemma AgreePlug(c: Ctx, t: Tree)
    requires Distinct(Plug(c, t))
    ensures CtxNodes(c) !! Nodes(t)
    ensures Agree(Info(Plug(c, t), null))
            <==> Agree(CtxInfo(c, Root(t))) && Agree(Info(t, CtxParent(c)))
  {
    InfoPlug(c, t);
    AgreeUnion(CtxInfo(c, Root(t)), Info(t, CtxParent(c)));
  }

  /** Pointing the hole at another child changes only the hole's parent. */
  lemma CtxRelink(c: Ctx, x: Node?, y: Node?)
    requires !c.Top?
    requires CtxDistinct(c)
    ensures CtxInfo(c, y) == CtxInfo(c, x)[c.parent := CtxInfo(c, y)[c.parent]]
    ensures CtxInfo(c, y)[c.parent] ==
      if c.HoleLeft? then CtxInfo(c, x)[c.parent].(left := y)
      else CtxInfo(c, x)[c.parent].(right := y)
  {
  }

  /** The assignment after recolouring the top node of t. */
  lemma InfoRecolor(t: Tree, up: Node?, col: Color)
    requires t.N? && Distinct(t)
    ensures Info(t.(color := col), up) == Info(t, up)[t.node := Info(t, up)[t.node].(color := col)]
  {
  }

  /** Recolouring the node at the top of the subtree in the hole of c
      changes that node's colour and nothing else. */
  lemma PlugRecolor(c: Ctx, t: Tree, col: Color)
    requires t.N? && Distinct(Plug(c, t))
    ensures t.node in Nodes(Plug(c, t))
    ensures var t' := t.(color := col);
      && Nodes(Plug(c, t')) == Nodes(Plug(c, t))
      && Distinct(Plug(c, t')) && Root(Plug(c, t')) == Root(Plug(c, t))
      && Info(Plug(c, t'), null)
         == Info(Plug(c, t), null)[t.node := Info(Plug(c, t), null)[t.node].(color := col)]
  {
    var t' := t.(color := col);
    PlugParts(c, t);
    PlugParts(c, t');
    InfoPlug(c, t);
    InfoPlug(c, t');
    InfoRecolor(t, CtxParent(c), col);
    var ci, it := CtxInfo(c, Root(t)), Info(t, CtxParent(c));
    UnionUpdate(ci, it, t.node, it[t.node].(color := col));
  }

  /** Updating a key of the right operand of a union updates the union. */
  lemma UnionUpdate(a: map<Node, Fields>, b: map<Node, Fields>, k: Node, v: Fields)
    requires k in b
    ensures a + b[k := v] == (a + b)[k := v]
  {
  }

  /** Below the top, a node's entry is the one its child subtree gives it. */
  lemma InfoChild(t: Tree, up: Node?, n: Node)
    requires t.N? && Distinct(t) && n in Nodes(t) && n != t.node
    ensures n in Nodes(t.left) ==> Info(t, up)[n] == Info(t.left, t.node)[n]
    ensures n in Nodes(t.right) ==> Info(t, up)[n] == Info(t.right, t.node)[n]
  {
  }

  /** Hanging a subtree from another parent changes only its top node's
      back-link. */
  lemma InfoReparent(t: Tree, u: Node?, u': Node?, n: Node)
    requires t.N? && n in Nodes(t) && n != t.node
    ensures Info(t, u')[n] == Info(t, u)[n]
  {
  }

  /** The assignment after LeftRotate(P), node by node: P, V and V's old
      left child R get new fields, every other node keeps its own. */
  lemma InfoRotateLeft(t: Tree, up: Node?)
    requires t.N? && t.right.N? && Distinct(t)
    ensures var p, v, b := t.node, t.right.node, t.right.left;
      var m, m' := Info(t, up), Info(RotateLeft(t), up);
      && m'.Keys == m.Keys && p in m && v in m && (b.N? ==> b.node in m)
      && (forall n :: n in m && n != p && n != v && n != Root(b) ==> m'[n] == m[n])
      && m[v] == Fields(t.right.key, t.right.color, Root(b), Root(t.right.right), p)
      && m'[p] == m[p].(right := Root(b), parent := v)
      && m'[v] == m[v].(left := p, parent := up)
      && (b.N? ==> m[b.node] == Info(b, v)[b.node] && m'[b.node] == m[b.node].(parent := p))
  {
    var p, vt := t.node, t.right;
    var v, a, b, x := vt.node, t.left, vt.left, vt.right;
    assert Distinct(vt);
    var inner := N(p, t.color, t.key, a, b);
    var rt := N(v, vt.color, vt.key, inner, x);
    assert RotateLeft(t) == rt;
    var m, m' := Info(t, up), Info(rt, up);
    forall n | n in m && n != p && n != v && n != Root(b)
      ensures m'[n] == m[n]
    {
      if n in Nodes(a) {
        InfoChild(rt, up, n);
        InfoChild(inner, v, n);
        InfoChild(t, up, n);
      } else if n in Nodes(b) {
        InfoChild(rt, up, n);
        InfoChild(inner, v, n);
        InfoReparent(b, v, p, n);
        InfoChild(t, up, n);
        InfoChild(vt, p, n);
      } else {
        InfoChild(rt, up, n);
        InfoChild(t, up, n);
        InfoChild(vt, p, n);
      }
    }
    InfoChild(t, up, v);
    if b.N? {
      InfoChild(rt, up, b.node);
      InfoChild(inner, v, b.node);
      InfoChild(t, up, b.node);
      InfoChild(vt, p, b.node);
    }
  }

  /** The assignment after RightRotate(P): the mirror image of
      InfoRotateLeft. */
  lemma InfoRotateRight(t: Tree, up: Node?)
    requires t.N? && t.left.N? && Distinct(t)
    ensures var p, v, b := t.node, t.left.node, t.left.right;
      var m, m' := Info(t, up), Info(RotateRight(t), up);
      && m'.Keys == m.Keys && p in m && v in m && (b.N? ==> b.node in m)
      && (forall n :: n in m && n != p && n != v && n != Root(b) ==> m'[n] == m[n])
      && m[v] == Fields(t.left.key, t.left.color, Root(t.left.left), Root(b), p)
      && m'[p] == m[p].(left := Root(b), parent := v)
      && m'[v] == m[v].(right := p, parent := up)
      && (b.N? ==> m[b.node] == Info(b, v)[b.node] && m'[b.node] == m[b.node].(parent := p))
  {
    var p, vt := t.node, t.left;
    var v, a, b, x := vt.node, t.right, vt.right, vt.left;
    assert Distinct(vt);
    var inner := N(p, t.color, t.key, b, a);
    var rt := N(v, vt.color, vt.key, x, inner);
    assert RotateRight(t) == rt;
    var m, m' := Info(t, up), Info(rt, up);
    forall n | n in m && n != p && n != v && n != Root(b)
      ensures m'[n] == m[n]
    {
      if n in Nodes(a) {
        InfoChild(rt, up, n);
        InfoChild(inner, v, n);
        InfoChild(t, up, n);
      } else if n in Nodes(b) {
        InfoChild(rt, up, n);
        InfoChild(inner, v, n);
        InfoReparent(b, v, p, n);
        InfoChild(t, up, n);
        InfoChild(vt, p, n);
      } else {
        InfoChild(rt, up, n);
        InfoChild(t, up, n);
        InfoChild(vt, p, n);
      }
    }
    InfoChild(t, up, v);
    if b.N? {
      InfoChild(rt, up, b.node);
      InfoChild(inner, v, b.node);
      InfoChild(t, up, b.node);
      InfoChild(vt, p, b.node);
    }
  }

  /** m' is m after LeftRotate(P): with V = P's right child, R = V's left
      child and U = P's parent, V takes P's place under U, P becomes V's left
      child, R becomes P's right child, and no other node changes. */
  ghost predicate RotatedLeftAt(m: map<Node, Fields>, m': map<Node, Fields>, p: Node) {
    && p in m && m[p].right != null && m[p].right in m
    && var v, up := m[p].right, m[p].parent;
    var r := m[v].left;
    && (r != null ==> r in m) && (up != null ==> up in m)
    && v != p && up != p && up != v && r != p && r != v && (up != null ==> up != r)
    && m'.Keys == m.Keys
    && (forall n :: n in m && n != p && n != v && n != r && n != up ==> m'[n] == m[n])
    && m'[p] == m[p].(right := r, parent := v)
    && m'[v] == m[v].(left := p, parent := up)
    && (r != null ==> m'[r] == m[r].(parent := p))
    && (up != null ==> m'[up] == if m[up].left == p then m[up].(left := v) else m[up].(right := v))
  }

  /** m' is m after RightRotate(P): the mirror image of RotatedLeftAt. */
  ghost predicate RotatedRightAt(m: map<Node, Fields>, m': map<Node, Fields>, p: Node) {
    && p in m && m[p].left != null && m[p].left in m
    && var v, up := m[p].left, m[p].parent;
    var r := m[v].right;
    && (r != null ==> r in m) && (up != null ==> up in m)
    && v != p && up != p && up != v && r != p && r != v && (up != null ==> up != r)
    && m'.Keys == m.Keys
    && (forall n :: n in m && n != p && n != v && n != r && n != up ==> m'[n] == m[n])
    && m'[p] == m[p].(left := r, parent := v)
    && m'[v] == m[v].(right := p, parent := up)
    && (r != null ==> m'[r] == m[r].(parent := p))
    && (up != null ==> m'[up] == if m[up].left == p then m[up].(left := v) else m[up].(right := v))
  }

  /** LeftRotate at the top of the subtree in the hole of c, on the whole
      tree: the node set and its distinctness stay, the root changes only when
      P was the root, and the assignment changes as RotatedLeftAt says. */
  lemma PlugRotateLeft(c: Ctx, t: Tree)
    requires t.N? && t.right.N? && Distinct(Plug(c, t))
    ensures var t', m := RotateLeft(t), Info(Plug(c, t), null);
      var m' := Info(Plug(c, t'), null);
      && Nodes(Plug(c, t')) == Nodes(Plug(c, t)) && Distinct(Plug(c, t'))
      && RotatedLeftAt(m, m', t.node)
      && Root(Plug(c, t')) == if m[t.node].parent == null then m[t.node].right else Root(Plug(c, t))
  {
    var t' := RotateLeft(t);
    var p, vt := t.node, t.right;
    var v, b, up := vt.node, vt.left, CtxParent(c);
    var m, m' := Info(Plug(c, t), null), Info(Plug(c, t'), null);
    PlugParts(c, t);
    PlugParts(c, t');
    InfoPlug(c, t);
    InfoPlug(c, t');
    InfoRotateLeft(t, up);
    var mt, mt' := Info(t, up), Info(t', up);
    assert m[p] == mt[p] && m[v] == mt[v] && m'[p] == mt'[p] && m'[v] == mt'[v];
    if b.N? {
      assert m[b.node] == mt[b.node] && m'[b.node] == mt'[b.node];
    }
    if !c.Top? {
      CtxRelink(c, p, v);
      assert c.parent in CtxNodes(c);
      assert c.HoleRight? ==> Root(c.sibling) != p;
      assert m[c.parent] == CtxInfo(c, p)[c.parent];
      assert m'[c.parent] == CtxInfo(c, v)[c.parent];
    }
    forall n | n in m && n != p && n != v && n != Root(b) && n != up
      ensures m'[n] == m[n]
    {
      RotateLeftElsewhere(c, t, n);
    }
  }

  /** A node other than the three whose links RotateLeft rewrites, and the
      parent above them, keeps its entry. */
  lemma RotateLeftElsewhere(c: Ctx, t: Tree, n: Node)
    requires t.N? && t.right.N? && Distinct(Plug(c, t))
    requires n in Nodes(Plug(c, t)) && n != t.node && n != t.right.node && n != Root(t.right.left) && n != CtxParent(c)
    ensures n in Info(Plug(c, RotateLeft(t)), null)
    ensures Info(Plug(c, RotateLeft(t)), null)[n] == Info(Plug(c, t), null)[n]
  {
    var t', p, v := RotateLeft(t), t.node, t.right.node;
    PlugParts(c, t);
    PlugParts(c, t');
    InfoPlug(c, t);
    InfoPlug(c, t');
    if n in Nodes(t) {
      InfoRotateLeft(t, CtxParent(c));
    } else {
      assert n in CtxNodes(c) && !c.Top? && n != c.parent;
      CtxRelink(c, p, v);
    }
  }

  /** RightRotate at the top of the subtree in the hole of c: the mirror
      image of PlugRotateLeft. */
  lemma PlugRotateRight(c: Ctx, t: Tree)
    requires t.N? && t.left.N? && Distinct(Plug(c, t))
    ensures var t', m := RotateRight(t), Info(Plug(c, t), null);
      var m' := Info(Plug(c, t'), null);
      && Nodes(Plug(c, t')) == Nodes(Plug(c, t)) && Distinct(Plug(c, t'))
      && RotatedRightAt(m, m', t.node)
      && Root(Plug(c, t')) == if m[t.node].parent == null then m[t.node].left else Root(Plug(c, t))
  {
    var t' := RotateRight(t);
    var p, vt := t.node, t.left;
    var v, b, up := vt.node, vt.right, CtxParent(c);
    var m, m' := Info(Plug(c, t), null), Info(Plug(c, t'), null);
    PlugParts(c, t);
    PlugParts(c, t');
    InfoPlug(c, t);
    InfoPlug(c, t');
    InfoRotateRight(t, up);
    var mt, mt' := Info(t, up), Info(t', up);
    assert m[p] == mt[p] && m[v] == mt[v] && m'[p] == mt'[p] && m'[v] == mt'[v];
    if b.N? {
      assert m[b.node] == mt[b.node] && m'[b.node] == mt'[b.node];
    }
    if !c.Top? {
      CtxRelink(c, p, v);
      assert c.parent in CtxNodes(c);
      assert c.HoleRight? ==> Root(c.sibling) != p;
      assert m[c.parent] == CtxInfo(c, p)[c.parent];
      assert m'[c.parent] == CtxInfo(c, v)[c.parent];
    }
    forall n | n in m && n != p && n != v && n != Root(b) && n != up
      ensures m'[n] == m[n]
    {
      RotateRightElsewhere(c, t, n);
    }
  }

  /** A node other than the three whose links RotateRight rewrites, and the
      parent above them, keeps its entry. */
  lemma RotateRightElsewhere(c: Ctx, t: Tree, n: Node)
    requires t.N? && t.left.N? && Distinct(Plug(c, t))
    requires n in Nodes(Plug(c, t)) && n != t.node && n != t.left.node && n != Root(t.left.right) && n != CtxParent(c)
    ensures n in Info(Plug(c, RotateRight(t)), null)
    ensures Info(Plug(c, RotateRight(t)), null)[n] == Info(Plug(c, t), null)[n]
  {
    var t', p, v := RotateRight(t), t.node, t.left.node;
    PlugParts(c, t);
    PlugParts(c, t');
    InfoPlug(c, t);
    InfoPlug(c, t');
    if n in Nodes(t) {
      InfoRotateRight(t, CtxParent(c));
    } else {
      assert n in CtxNodes(c) && !c.Top? && n != c.parent;
      CtxRelink(c, p, v);
    }
  }


  /** The entry of the node at the top of the subtree in the hole of c. */
  lemma InfoTop(c: Ctx, t: Tree)
    requires t.N? && Distinct(Plug(c, t))
    ensures var m := Info(Plug(c, t), null);
      && t.node in m
      && m[t.node] == Fields(t.key, t.color, Root(t.left), Root(t.right), CtxParent(c))
  {
    InfoPlug(c, t);
  }

  /** What InsertFixUp reads around the node at the top of t: its parent, the
      parent's colour and side, the grandparent and the uncle with its
      colour, all as the assignment of the whole tree gives them. */
  lemma FamilyEntries(c: Ctx, t: Tree)
    requires t.N? && Distinct(Plug(c, t))
    ensures var m := Info(Plug(c, t), null);
      && t.node in m && m[t.node].parent == CtxParent(c)
      && (!c.Top? ==>
            && c.parent in m && m[c.parent].color == c.color
            && m[c.parent].parent == CtxParent(c.up)
            && (m[c.parent].left == t.node <==> c.HoleLeft?))
      && (!c.Top? && !c.up.Top? ==>
            var g, u := c.up.parent, c.up.sibling;
            && g in m
            && (m[g].left == c.parent <==> c.up.HoleLeft?)
            && (if c.up.HoleLeft? then m[g].right else m[g].left) == Root(u)
            && (u.N? ==> u.node in m && m[u.node].color == u.color))
  {
    InfoTop(c, t);
    if !c.Top? {
      var f := Fill(c, t);
      InfoTop(c.up, f);
      PlugParts(c.up, f);
      assert Distinct(f);
      assert c.HoleRight? ==> Root(c.sibling) != t.node;
      if !c.up.Top? {
        var up := c.up;
        var g := Fill(up, f);
        InfoTop(up.up, g);
        PlugParts(up.up, g);
        assert Distinct(g);
        assert c.parent in Nodes(f);
        assert up.HoleRight? ==> Root(up.sibling) != c.parent;
        if up.sibling.N? {
          var cu := if up.HoleLeft? then HoleRight(up.parent, up.color, up.key, f, up.up)
                    else HoleLeft(up.parent, up.color, up.key, f, up.up);
          assert Plug(cu, up.sibling) == Plug(up.up, g);
          InfoTop(cu, up.sibling);
        }
      }
    }
  }
  /** Attaching a fresh leaf n in the empty hole of c: n holds its key, red,
      no children and the hole's parent as back-link, and the hole's parent
      points at n; no other node changes. */
  lemma PlugAttach(c: Ctx, n: Node, k: int)
    requires !c.Top? && Distinct(Plug(c, Nil)) && n !in Nodes(Plug(c, Nil))
    ensures var m, m' := Info(Plug(c, Nil), null), Info(Plug(c, Leaf(n, k)), null);
      && Distinct(Plug(c, Leaf(n, k)))
      && Root(Plug(c, Leaf(n, k))) == Root(Plug(c, Nil))
      && c.parent in m && n !in m && m'.Keys == m.Keys + {n}
      && (forall x :: x in m && x != c.parent ==> m'[x] == m[x])
      && m'[c.parent] == (if c.HoleLeft? then m[c.parent].(left := n) else m[c.parent].(right := n))
      && m'[n] == Fields(k, Red, null, null, c.parent)
  {
    PlugParts(c, Nil);
    PlugParts(c, Leaf(n, k));
    InfoPlug(c, Nil);
    InfoPlug(c, Leaf(n, k));
    CtxRelink(c, null, n);
  }
  /** A heap that represents t hanging from up represents both of its
      subtrees hanging from t's root. */
  lemma AgreeChildren(t: Tree, up: Node?)
    requires t.N? && Distinct(t) && Agree(Info(t, up))
    ensures Agree(Info(t.left, t.node)) && Agree(Info(t.right, t.node))
  {
    forall n | n in Info(t.left, t.node)
      ensures FieldsOf(n) == Info(t.left, t.node)[n]
    {
      InfoChild(t, up, n);
    }
    forall n | n in Info(t.right, t.node)
      ensures FieldsOf(n) == Info(t.right, t.node)[n]
    {
      InfoChild(t, up, n);
    }
  }
  /** m' is m after the splice of DeleteRecursively at x, a node with at
      most one child S: S (or null) takes x's place under x's parent U, S's
      back-link becomes U, x leaves the tree and no other node changes. */
  ghost predicate SplicedAt(m: map<Node, Fields>, m': map<Node, Fields>, x: Node) {
    && x in m && (m[x].left == null || m[x].right == null)
    && var up := m[x].parent;
    var s := if m[x].right == null then m[x].left else m[x].right;
    && (up != null ==> up in m && up != x) && (s != null ==> s in m && s != x && s != up)
    && m'.Keys == m.Keys - {x}
    && (forall n :: n in m' && n != up && n != s ==> m'[n] == m[n])
    && (up != null ==> m'[up] == if m[up].left == x then m[up].(left := s) else m[up].(right := s))
    && (s != null ==> m'[s] == m[s].(parent := up))
  }

  /** Splicing out the top of t, which has at most one child S: S now hangs
      from t's parent and every node below keeps its entry. */
  lemma InfoSplice(t: Tree, up: Node?)
    requires t.N? && (t.left.Nil? || t.right.Nil?) && Distinct(t)
    ensures var s := if t.right.Nil? then t.left else t.right;
      var m, m' := Info(t, up), Info(s, up);
      && m'.Keys == m.Keys - {t.node}
      && (forall n :: n in m' && n != Root(s) ==> m'[n] == m[n])
      && (s.N? ==> m'[s.node] == m[s.node].(parent := up))
  {
    var s := if t.right.Nil? then t.left else t.right;
    forall n | n in Info(s, up) && n != Root(s)
      ensures Info(s, up)[n] == Info(t, up)[n]
    {
      InfoReparent(s, t.node, up, n);
      InfoChild(t, up, n);
    }
    if s.N? {
      InfoChild(t, up, s.node);
    }
  }

  /** Splicing out the top of t removes exactly that node from the tree. */
  lemma PlugSpliceNodes(c: Ctx, t: Tree)
    requires t.N? && (t.left.Nil? || t.right.Nil?) && Distinct(Plug(c, t))
    ensures var s := if t.right.Nil? then t.left else t.right;
      Nodes(Plug(c, s)) == Nodes(Plug(c, t)) - {t.node}
  {
    var s := if t.right.Nil? then t.left else t.right;
    PlugParts(c, t);
    PlugParts(c, s);
    assert Nodes(s) == Nodes(t) - {t.node};
  }

  /** The entries a splice at the top of t changes, and those it keeps. */
  lemma PlugSpliceEntries(c: Ctx, t: Tree)
    requires t.N? && (t.left.Nil? || t.right.Nil?) && Distinct(Plug(c, t))
    ensures var s, u := (if t.right.Nil? then t.left else t.right), CtxParent(c);
      var m, m' := Info(Plug(c, t), null), Info(Plug(c, s), null);
      && (forall n :: n in m' && n != u && n != Root(s) ==> n in m && m'[n] == m[n])
      && (s.N? ==> s.node in m && s.node in m' && m'[s.node] == m[s.node].(parent := u))
      && (!c.Top? ==>
            && c.parent in m && c.parent in m'
            && m'[c.parent] == if c.HoleLeft? then m[c.parent].(left := Root(s)) else m[c.parent].(right := Root(s)))
  {
    var s, u := (if t.right.Nil? then t.left else t.right), CtxParent(c);
    var m, m' := Info(Plug(c, t), null), Info(Plug(c, s), null);
    PlugParts(c, t);
    PlugParts(c, s);
    assert Nodes(s) <= Nodes(t) && Distinct(s);
    InfoPlug(c, t);
    InfoPlug(c, s);
    InfoSplice(t, u);
    var cm, cm' := CtxInfo(c, t.node), CtxInfo(c, Root(s));
    if !c.Top? {
      CtxRelink(c, t.node, Root(s));
    }
    assert m == cm + Info(t, u) && m' == cm' + Info(s, u);
    forall n | n in m' && n != u && n != Root(s)
      ensures n in m && m'[n] == m[n]
    {
      if n in Nodes(s) {
        assert m'[n] == Info(s, u)[n] && m[n] == Info(t, u)[n];
      } else {
        assert m'[n] == cm'[n] && m[n] == cm[n];
      }
    }
    if s.N? {
      assert m'[s.node] == Info(s, u)[s.node] && m[s.node] == Info(t, u)[s.node];
    }
    if !c.Top? {
      assert m'[c.parent] == cm'[c.parent] && m[c.parent] == cm[c.parent];
    }
  }

  /** Splicing out the top node of the subtree in the hole of c, which has
      at most one child: the whole tree's assignment changes as SplicedAt
      says, and the root changes only when that node was the root. */
  lemma PlugSplice(c: Ctx, t: Tree)
    requires t.N? && (t.left.Nil? || t.right.Nil?) && Distinct(Plug(c, t))
    ensures var s := if t.right.Nil? then t.left else t.right;
      && Distinct(Plug(c, s))
      && Root(Plug(c, s)) == (if c.Top? then Root(s) else Root(Plug(c, t)))
      && SplicedAt(Info(Plug(c, t), null), Info(Plug(c, s), null), t.node)
  {
    var s := if t.right.Nil? then t.left else t.right;
    FamilyEntries(c, t);
    PlugParts(c, t);
    PlugParts(c, s);
    PlugSpliceNodes(c, t);
    PlugSpliceEntries(c, t);
    RootNull(t.left);
    RootNull(t.right);
    RootNull(s);
    InfoTop(c, t);
    assert Nodes(s) <= Nodes(t) && Distinct(s);
  }

  /** The assignment after overwriting the key of the top node of t. */
  lemma InfoRekey(t: Tree, up: Node?, k: int)
    requires t.N? && Distinct(t)
    ensures Info(t.(key := k), up) == Info(t, up)[t.node := Info(t, up)[t.node].(key := k)]
  {
  }

  /** Overwriting the key of the top node of the subtree in the hole of c
      changes that node's key and nothing else. */
  lemma PlugRekey(c: Ctx, t: Tree, k: int)
    requires t.N? && Distinct(Plug(c, t))
    ensures t.node in Nodes(Plug(c, t))
    ensures var t' := t.(key := k);
      && Nodes(Plug(c, t')) == Nodes(Plug(c, t))
      && Distinct(Plug(c, t')) && Root(Plug(c, t')) == Root(Plug(c, t))
      && Info(Plug(c, t'), null)
         == Info(Plug(c, t), null)[t.node := Info(Plug(c, t), null)[t.node].(key := k)]
  {
    var t' := t.(key := k);
    PlugParts(c, t);
    PlugParts(c, t');
    InfoPlug(c, t);
    InfoPlug(c, t');
    InfoRekey(t, CtxParent(c), k);
    var ci, it := CtxInfo(c, Root(t)), Info(t, CtxParent(c));
    UnionUpdate(ci, it, t.node, it[t.node].(key := k));
  }
}
