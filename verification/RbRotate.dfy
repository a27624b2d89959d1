/** What rotations and colour changes do to the fields of a tree's entries. */
module RbRotate {
  import opened Entries
  import opened RbShape
  import opened RbBalance

  /** The subtree after a left rotation at its root. */
  function RotL(t: Tree): Tree
    requires t.Node? && t.right.Node?
  {
    var y := t.right;
    Node(Node(t.left, t.elm, t.color, y.left), y.elm, y.color, y.right)
  }

  /** The subtree after a right rotation at its root. */
  function RotR(t: Tree): Tree
    requires t.Node? && t.left.Node?
  {
    var y := t.left;
    Node(y.left, y.elm, y.color, Node(y.right, t.elm, t.color, t.right))
  }

  /** The writes of a left rotation at `x`, whose right child is `y`. */
  ghost predicate LeftRotated(s: Store, s': Store, k: Ctx, x: Entry, y: Entry) {
    && x in s && y in s && x in s' && y in s'
    && var b := s[y].left;
    && s'[x] == s[x].(right := b, parent := y)
    && s'[y] == s[y].(left := x, parent := s[x].parent)
    && (b != null ==> b in s && b in s' && s'[b] == s[b].(parent := x))
    && ChildReplaced(s, s', k, y)
    && (forall e :: e in s && e !in {x, y} && e != b && e != Up(k) ==> e in s' && s'[e] == s[e])
  }

  /** The writes of a right rotation at `x`, whose left child is `y`. */
  ghost predicate RightRotated(s: Store, s': Store, k: Ctx, x: Entry, y: Entry) {
    && x in s && y in s && x in s' && y in s'
    && var b := s[y].right;
    && s'[x] == s[x].(left := b, parent := y)
    && s'[y] == s[y].(right := x, parent := s[x].parent)
    && (b != null ==> b in s && b in s' && s'[b] == s[b].(parent := x))
    && ChildReplaced(s, s', k, y)
    && (forall e :: e in s && e !in {x, y} && e != b && e != Up(k) ==> e in s' && s'[e] == s[e])
  }

  lemma RotationKeepsOrder(a: Tree, x: Entry, c: Color, b: Tree, y: Entry, d: Color, e: Tree)
    ensures Inorder(Node(a, x, c, Node(b, y, d, e))) == Inorder(Node(Node(a, x, c, b), y, d, e))
  {
    var p, q, r := Inorder(a), Inorder(b), Inorder(e);
    assert p + [x] + (q + [y] + r) == (p + [x] + q) + [y] + r;
  }

  lemma RotLInorder(k: Ctx, t: Tree)
    requires t.Node? && t.right.Node?
    ensures Inorder(Plug(k, RotL(t))) == Inorder(Plug(k, t))
  {
    PlugInorder(k, t);
    PlugInorder(k, RotL(t));
    RotationKeepsOrder(t.left, t.elm, t.color, t.right.left, t.right.elm, t.right.color, t.right.right);
  }

  lemma RotRInorder(k: Ctx, t: Tree)
    requires t.Node? && t.left.Node?
    ensures Inorder(Plug(k, RotR(t))) == Inorder(Plug(k, t))
  {
    PlugInorder(k, t);
    PlugInorder(k, RotR(t));
    RotationKeepsOrder(t.left.left, t.left.elm, t.left.color, t.left.right, t.elm, t.color, t.right);
  }

  /** A member sits where its context says, and no two of the entries that a rotation
      at `t.elm` touches are the same. */
  lemma Neighbours(s: Store, k: Ctx, t: Tree)
    requires t.Node? && IsTree(s, null, Plug(k, t)) && Sorted(Inorder(Plug(k, t)))
    ensures IsCtx(s, k, t.elm) && IsTree(s, Up(k), t) && CtxElems(k) !! Elems(t)
    ensures Distinct(Plug(k, t)) && Distinct(t)
    ensures s[t.elm].parent == Up(k)
    ensures k.Top? <==> Up(k) == null
    ensures Up(k) != null ==> Up(k) in s && Up(k) in CtxElems(k)
    ensures Up(k) != null ==> (k.InLeft? <==> s[Up(k)].left == t.elm)
  {
    PlugIsTree(s, k, t);
    SortedDistinct(Plug(k, t));
    PlugDistinct(k, t);
    CtxDisjoint(k, Elems(t));
  }

  lemma RightChild(s: Store, parent: Entry?, t: Tree)
    requires IsTree(s, parent, t) && Distinct(t) && t.Node? && t.right.Node?
    ensures var y := t.right.elm; var b := Ptr(t.right.left);
            s[t.elm].right == y && y in s && y in Elems(t) && y != t.elm && s[y].left == b
            && (b != null ==> b in s && b in Elems(t) && b != t.elm && b != y)
  {
    assert IsTree(s, t.right.elm, t.right.left);
  }

  lemma LeftChild(s: Store, parent: Entry?, t: Tree)
    requires IsTree(s, parent, t) && Distinct(t) && t.Node? && t.left.Node?
    ensures var y := t.left.elm; var b := Ptr(t.left.right);
            s[t.elm].left == y && y in s && y in Elems(t) && y != t.elm && s[y].right == b
            && (b != null ==> b in s && b in Elems(t) && b != t.elm && b != y)
  {
    assert IsTree(s, t.left.elm, t.left.right);
  }

  /** Only a subtree that is the whole tree decides which entry is the root. */
  lemma {:induction false} PlugPtr(k: Ctx, t: Tree, t': Tree)
    ensures if k.Top? then Ptr(Plug(k, t)) == Ptr(t) else Ptr(Plug(k, t)) == Ptr(Plug(k, t'))
    decreases k
  {
    match k
    case Top =>
    case InLeft(up, e, c, r) => PlugPtr(up, Node(t, e, c, r), Node(t', e, c, r));
    case InRight(up, l, e, c) => PlugPtr(up, Node(l, e, c, t), Node(l, e, c, t'));
  }

  lemma RotateLeftTree(s: Store, s': Store, k: Ctx, t: Tree)
    requires t.Node? && t.right.Node?
    requires IsTree(s, null, Plug(k, t)) && Sorted(Inorder(Plug(k, t)))
    requires LeftRotated(s, s', k, t.elm, t.right.elm)
    ensures IsTree(s', null, Plug(k, RotL(t)))
    ensures Inorder(Plug(k, RotL(t))) == Inorder(Plug(k, t))
    ensures Ptr(Plug(k, RotL(t))) == if k.Top? then t.right.elm else Ptr(Plug(k, t))
  {
    var x, y := t.elm, t.right.elm;
    Neighbours(s, k, t);
    PlugDistinct(k, t);
    ReplaceChild(s, s', k, x, y, Elems(t));
    FrameTree(s, s', x, t.left);
    FrameTree(s, s', y, t.right.right);
    Reparent(s, s', y, x, t.right.left);
    PlugIsTree(s', k, RotL(t));
    RotLInorder(k, t);
    PlugPtr(k, t, RotL(t));
  }

  lemma RotateRightTree(s: Store, s': Store, k: Ctx, t: Tree)
    requires t.Node? && t.left.Node?
    requires IsTree(s, null, Plug(k, t)) && Sorted(Inorder(Plug(k, t)))
    requires RightRotated(s, s', k, t.elm, t.left.elm)
    ensures IsTree(s', null, Plug(k, RotR(t)))
    ensures Inorder(Plug(k, RotR(t))) == Inorder(Plug(k, t))
    ensures Ptr(Plug(k, RotR(t))) == if k.Top? then t.left.elm else Ptr(Plug(k, t))
  {
    var x, y := t.elm, t.left.elm;
    Neighbours(s, k, t);
    PlugDistinct(k, t);
    ReplaceChild(s, s', k, x, y, Elems(t));
    FrameTree(s, s', x, t.right);
    FrameTree(s, s', y, t.left.left);
    Reparent(s, s', y, x, t.left.right);
    PlugIsTree(s', k, RotR(t));
    RotRInorder(k, t);
    PlugPtr(k, t, RotR(t));
  }

  /** What a left rotation reads, and that the entries it writes are different ones. */
  lemma RotateLeftAliases(s: Store, k: Ctx, t: Tree)
    requires t.Node? && t.right.Node?
    requires IsTree(s, null, Plug(k, t)) && Sorted(Inorder(Plug(k, t)))
    ensures var x, y, p := t.elm, t.right.elm, Up(k);
            && x in s && y in s && x != y && s[x].right == y && s[x].parent == p
            && (p != null ==> p in s && p != x && p != y && (k.InLeft? <==> s[p].left == x))
            && (k.Top? <==> p == null)
            && var b := s[y].left;
            && (b != null ==> b in s && b != x && b != y && b != p)
  {
    Neighbours(s, k, t);
    RightChild(s, Up(k), t);
  }

  /** What a right rotation reads, and that the entries it writes are different ones. */
  lemma RotateRightAliases(s: Store, k: Ctx, t: Tree)
    requires t.Node? && t.left.Node?
    requires IsTree(s, null, Plug(k, t)) && Sorted(Inorder(Plug(k, t)))
    ensures var x, y, p := t.elm, t.left.elm, Up(k);
            && x in s && y in s && x != y && s[x].left == y && s[x].parent == p
            && (p != null ==> p in s && p != x && p != y && (k.InLeft? <==> s[p].left == x))
            && (k.Top? <==> p == null)
            && var b := s[y].right;
            && (b != null ==> b in s && b != x && b != y && b != p)
  {
    Neighbours(s, k, t);
    LeftChild(s, Up(k), t);
  }

  lemma PaintTree(s: Store, s': Store, k: Ctx, t: Tree, c: Color)
    requires t.Node? && IsTree(s, null, Plug(k, t)) && Sorted(Inorder(Plug(k, t)))
    requires t.elm in s && t.elm in s' && s'[t.elm] == s[t.elm].(color := c)
    requires Agree(s, s', s.Keys - {t.elm})
    ensures IsTree(s', null, Plug(k, Paint(t, c)))
    ensures Inorder(Plug(k, Paint(t, c))) == Inorder(Plug(k, t))
    ensures Ptr(Plug(k, Paint(t, c))) == Ptr(Plug(k, t))
  {
    Neighbours(s, k, t);
    FrameCtx(s, s', k, t.elm);
    FrameTree(s, s', t.elm, t.left);
    FrameTree(s, s', t.elm, t.right);
    PlugIsTree(s', k, Paint(t, c));
    PlugInorder(k, t);
    PlugInorder(k, Paint(t, c));
    PlugPtr(k, t, Paint(t, c));
  }

  /** The subtree one step up: the entry above the hole with `t` put in. */
  function Fill(k: Ctx, t: Tree): Tree
    requires !k.Top?
  {
    if k.InLeft? then Node(t, k.elm, k.color, k.right) else Node(k.left, k.elm, k.color, t)
  }

  lemma Focus(s: Store, k: Ctx, t: Tree)
    requires IsTree(s, null, Plug(k, t))
    ensures IsCtx(s, k, Ptr(t)) && IsTree(s, Up(k), t)
    ensures !k.Top? ==> k.elm in s && s[k.elm].color == k.color && s[k.elm].parent == Up(k.up)
    ensures !k.Top? ==> s[k.elm].left == Ptr(Fill(k, t).left) && s[k.elm].right == Ptr(Fill(k, t).right)
    ensures t.Node? ==> t.elm in s && s[t.elm] == Cell(Ptr(t.left), Ptr(t.right), Up(k), t.color)
  {
    PlugIsTree(s, k, t);
  }

  /** What the guard of a fix-up loop reads. */
  lemma HoleFields(s: Store, k: Ctx, t: Tree)
    requires IsTree(s, null, Plug(k, t))
    ensures t.Node? ==> t.elm in s && s[t.elm].parent == Up(k) && s[t.elm].color == t.color
    ensures !k.Top? ==> k.elm in s && s[k.elm].color == k.color && k.elm in Elems(Plug(k, t))
  {
    Focus(s, k, t);
    PlugElems(k, t);
  }

  /** What a climb reads: the parent, and on which side of it the member is. */
  lemma UpFields(s: Store, k: Ctx, t: Tree)
    requires t.Node? && IsTree(s, null, Plug(k, t)) && Sorted(Inorder(Plug(k, t)))
    ensures t.elm in s && s[t.elm].parent == Up(k)
    ensures !k.Top? ==> k.elm in s && (k.InLeft? <==> s[k.elm].left == t.elm) && (k.InRight? <==> s[k.elm].right == t.elm)
  {
    Focus(s, k, t);
    if !k.Top? {
      WhichChild(s, k, t);
    }
  }

  /** What the fields of a member and of its children say. */
  lemma NodeFields(s: Store, k: Ctx, t: Tree)
    requires t.Node? && IsTree(s, null, Plug(k, t))
    ensures t.elm in s && s[t.elm] == Cell(Ptr(t.left), Ptr(t.right), Up(k), t.color)
    ensures t.left.Node? ==> t.left.elm in s && s[t.left.elm].color == t.left.color
    ensures t.right.Node? ==> t.right.elm in s && s[t.right.elm].color == t.right.color
  {
    Focus(s, k, t);
  }

  /** Which child the hole is can be read off the parent's left pointer. */
  lemma WhichChild(s: Store, k: Ctx, t: Tree)
    requires !k.Top? && t.Node? && IsTree(s, null, Plug(k, t)) && Sorted(Inorder(Plug(k, t)))
    ensures k.elm in s && (k.InLeft? <==> s[k.elm].left == t.elm) && (k.InRight? <==> s[k.elm].right == t.elm)
  {
    Focus(s, k, t);
    SortedDistinct(Plug(k, t));
    PlugDistinct(k, t);
  }

  /** A black root gives its colour to two red children. */
  function PushBlack(t: Tree): Tree
    requires t.Node?
  {
    Node(Paint(t.left, Black), t.elm, Red, Paint(t.right, Black))
  }

  /** The parent's subtree once its red child is on the left. */
  function StraightLeft(k: Ctx, te: Tree): Tree
    requires !k.Top? && te.Node?
  {
    if k.InRight? then RotL(Fill(k, te)) else Fill(k, te)
  }

  /** Where the red left grandchild hangs after the right rotation at the grandparent. */
  function LiftedLeft(k: Ctx, te: Tree): Ctx
    requires !k.Top? && te.Node? && k.up.InLeft?
  {
    var tp := StraightLeft(k, te);
    InLeft(k.up.up, tp.elm, Black, Node(tp.right, k.up.elm, Red, k.up.right))
  }

  lemma LiftedLeftBalanced(k: Ctx, te: Tree)
    requires te.Node? && te.color == Red && Balanced(te) && CtxBalanced(k, BlackHeight(te))
    requires CtxRed(k) && k.up.InLeft? && !IsRed(k.up.right)
    ensures var tp := StraightLeft(k, te); var x := tp.left;
            x.Node? && x.color == Red && Balanced(x) && CtxBalanced(LiftedLeft(k, te), BlackHeight(x))
    ensures Depth(LiftedLeft(k, te)) < Depth(k)
  {
  }

  /** The parent's subtree once its red child is on the right. */
  function StraightRight(k: Ctx, te: Tree): Tree
    requires !k.Top? && te.Node?
  {
    if k.InLeft? then RotR(Fill(k, te)) else Fill(k, te)
  }

  /** Where the red right grandchild hangs after the left rotation at the grandparent. */
  function LiftedRight(k: Ctx, te: Tree): Ctx
    requires !k.Top? && te.Node? && k.up.InRight?
  {
    var tp := StraightRight(k, te);
    InRight(k.up.up, Node(k.up.left, k.up.elm, Red, tp.left), tp.elm, Black)
  }

  lemma LiftedRightBalanced(k: Ctx, te: Tree)
    requires te.Node? && te.color == Red && Balanced(te) && CtxBalanced(k, BlackHeight(te))
    requires CtxRed(k) && k.up.InRight? && !IsRed(k.up.left)
    ensures var tp := StraightRight(k, te); var x := tp.right;
            x.Node? && x.color == Red && Balanced(x) && CtxBalanced(LiftedRight(k, te), BlackHeight(x))
    ensures Depth(LiftedRight(k, te)) < Depth(k)
  {
  }

  /** The grandparent's subtree. */
  function Grand(k: Ctx, te: Tree): Tree
    requires !k.Top? && !k.up.Top?
  {
    Fill(k.up, Fill(k, te))
  }

  /** What RB_INSERT_COLOR reads when it looks at parent, grandparent and uncle. */
  lemma GrandFields(s: Store, k: Ctx, te: Tree)
    requires te.Node? && CtxRed(k) && CtxBalanced(k, BlackHeight(te))
    requires IsTree(s, null, Plug(k, te)) && Sorted(Inorder(Plug(k, te)))
    ensures !k.up.Top? && var p, g, tg := k.elm, k.up.elm, Grand(k, te);
            && p in s && s[p].parent == g && g in s && tg.elm == g
            && Plug(k, te) == Plug(k.up.up, tg)
            && s[g].left == Ptr(tg.left) && s[g].right == Ptr(tg.right)
            && (k.up.InLeft? <==> s[g].left == p)
            && (tg.left.Node? ==> tg.left.elm in s && s[tg.left.elm].color == tg.left.color)
            && (tg.right.Node? ==> tg.right.elm in s && s[tg.right.elm].color == tg.right.color)
  {
    Focus(s, k, te);
    WhichChild(s, k.up, Fill(k, te));
    Focus(s, k.up.up, Grand(k, te));
  }

  lemma PushBlackBalanced(k: Ctx, te: Tree)
    requires te.Node? && te.color == Red && Balanced(te) && CtxRed(k) && CtxBalanced(k, BlackHeight(te))
    requires IsRed(Grand(k, te).left) && IsRed(Grand(k, te).right)
    ensures var tg := PushBlack(Grand(k, te));
            Balanced(tg) && CtxBalanced(k.up.up, BlackHeight(tg))
  {
  }

  /** A new red leaf is hung in an empty hole. */
  lemma AttachTree(s: Store, s': Store, k: Ctx, elm: Entry)
    requires IsTree(s, null, Plug(k, Leaf)) && Sorted(Inorder(Plug(k, Leaf)))
    requires elm !in Elems(Plug(k, Leaf)) && elm in s' && s'[elm] == Cell(null, null, Up(k), Red)
    requires ChildReplaced(s, s', k, elm)
    requires forall e :: e in s && e != elm && e != Up(k) ==> e in s' && s'[e] == s[e]
    ensures IsTree(s', null, Plug(k, Node(Leaf, elm, Red, Leaf)))
    ensures Ptr(Plug(k, Node(Leaf, elm, Red, Leaf))) == if k.Top? then elm else Ptr(Plug(k, Leaf))
  {
    var t' := Node(Leaf, elm, Red, Leaf);
    Focus(s, k, Leaf);
    PlugElems(k, Leaf);
    SortedDistinct(Plug(k, Leaf));
    PlugDistinct(k, Leaf);
    ReplaceChild(s, s', k, null, elm, {});
    PlugIsTree(s', k, t');
    PlugPtr(k, Leaf, t');
  }

  lemma AttachBalanced(k: Ctx, elm: Entry)
    requires RedBlack(Plug(k, Leaf))
    ensures var t' := Node(Leaf, elm, Red, Leaf);
            Balanced(t') && CtxBalanced(k, BlackHeight(t'))
  {
    PlugRedBlack(k, Leaf);
  }
}
