/** Removal from a red-black tree, as far as it is a matter of values: what unlinking an
    entry, putting another in its place and repairing black heights do to the tree. */
module RbRemove {
  import opened Entries
  import opened RbShape
  import opened RbBalance
  import opened RbRotate
  import opened RbSearch

  // ---- unlinking ------------------------------------------------------------

  /** The only child of an entry that has at most one. */
  function OnlyChild(t: Tree): Tree
    requires t.Node?
  {
    if t.left.Leaf? then t.right else t.left
  }

  /** The writes that take `t.elm` out: its only child moves up. */
  ghost predicate Unlinked(s: Store, s': Store, k: Ctx, child: Entry?) {
    && (child != null ==> child in s && child in s' && s'[child] == s[child].(parent := Up(k)))
    && ChildReplaced(s, s', k, child)
    && (forall e :: e in s && e != child && e != Up(k) ==> e in s' && s'[e] == s[e])
  }

  lemma UnlinkTree(s: Store, s': Store, k: Ctx, t: Tree)
    requires t.Node? && (t.left.Leaf? || t.right.Leaf?)
    requires IsTree(s, null, Plug(k, t)) && Sorted(Inorder(Plug(k, t)))
    requires Unlinked(s, s', k, Ptr(OnlyChild(t)))
    ensures IsTree(s', null, Plug(k, OnlyChild(t)))
    ensures Ptr(Plug(k, OnlyChild(t))) == if k.Top? then Ptr(OnlyChild(t)) else Ptr(Plug(k, t))
  {
    var c := OnlyChild(t);
    Neighbours(s, k, t);
    PlugDistinct(k, t);
    ReplaceChild(s, s', k, t.elm, Ptr(c), Elems(t));
    Reparent(s, s', t.elm, Up(k), c);
    PlugIsTree(s', k, c);
    PlugPtr(k, t, c);
  }

  /** What unlinking writes: entries different from the one taken out. */
  lemma UnlinkAliases(s: Store, k: Ctx, t: Tree)
    requires t.Node? && (t.left.Leaf? || t.right.Leaf?)
    requires IsTree(s, null, Plug(k, t)) && Sorted(Inorder(Plug(k, t)))
    ensures var c, p := Ptr(OnlyChild(t)), Up(k);
            && (c != null ==> c in s && c != t.elm && c != p)
            && (p != null ==> p in s && p != t.elm && (k.InLeft? <==> s[p].left == t.elm))
            && (k.Top? <==> p == null)
  {
    Neighbours(s, k, t);
    assert OnlyChild(t).Node? ==> OnlyChild(t).elm in Elems(t);
  }

  lemma Regroup(b: seq<Entry>, l: seq<Entry>, e: seq<Entry>, r: seq<Entry>, a: seq<Entry>)
    ensures b + (l + e + r) + a == b + l + e + (r + a)
  {
  }

  /** The order loses the unlinked entry and nothing else. */
  lemma UnlinkInorder(k: Ctx, t: Tree)
    requires t.Node? && (t.left.Leaf? || t.right.Leaf?)
    ensures Inorder(Plug(k, t)) ==
            Before(k) + Inorder(t.left) + [t.elm] + (Inorder(t.right) + After(k))
    ensures Inorder(Plug(k, OnlyChild(t))) ==
            Before(k) + Inorder(t.left) + (Inorder(t.right) + After(k))
  {
    PlugInorder(k, t);
    PlugInorder(k, OnlyChild(t));
    Regroup(Before(k), Inorder(t.left), [t.elm], Inorder(t.right), After(k));
    assert Inorder(OnlyChild(t)) == Inorder(t.left) + [] + Inorder(t.right);
    Regroup(Before(k), Inorder(t.left), [], Inorder(t.right), After(k));
    assert Before(k) + Inorder(t.left) + [] == Before(k) + Inorder(t.left);
  }

  lemma DropSorted(a: seq<Entry>, e: Entry, b: seq<Entry>)
    requires Sorted(a + [e] + b)
    ensures Sorted(a + b)
    ensures (set x | x in a + b) == (set x | x in a + [e] + b) - {e}
  {
    SortedParts(a, [e], b);
    var p, q := a + b, a + [e] + b;
    assert e in [e];
    assert forall i :: 0 <= i < |p| ==> p[i] == if i < |a| then q[i] else q[i + 1];
  }

  /** Unlinking takes away the entry, keeps the order, and one black if it was black. */
  lemma UnlinkSpec(k: Ctx, t: Tree)
    requires t.Node? && (t.left.Leaf? || t.right.Leaf?) && Sorted(Inorder(Plug(k, t)))
    ensures Sorted(Inorder(Plug(k, OnlyChild(t))))
    ensures Elems(Plug(k, OnlyChild(t))) == Elems(Plug(k, t)) - {t.elm}
  {
    UnlinkInorder(k, t);
    DropSorted(Before(k) + Inorder(t.left), t.elm, Inorder(t.right) + After(k));
    ElemsInorder(Plug(k, t));
    ElemsInorder(Plug(k, OnlyChild(t)));
  }

  lemma UnlinkBalanced(k: Ctx, t: Tree)
    requires t.Node? && (t.left.Leaf? || t.right.Leaf?) && RedBlack(Plug(k, t))
    ensures var c := OnlyChild(t);
            Balanced(c) && Nearly(c) && CtxBalanced(k, BlackHeight(c) + Count(t.color))
            && (t.color == Red ==> RedBlack(Plug(k, c)))
  {
    PlugRedBlack(k, t);
    PlugRedBlack(k, OnlyChild(t));
  }

  // ---- transplanting ----------------------------------------------------------

  /** The context `k` with the context `inner` in its hole. */
  function Graft(inner: Ctx, k: Ctx): Ctx {
    match inner
    case Top => k
    case InLeft(up, e, c, r) => InLeft(Graft(up, k), e, c, r)
    case InRight(up, l, e, c) => InRight(Graft(up, k), l, e, c)
  }

  lemma {:induction false} GraftPlug(inner: Ctx, k: Ctx, t: Tree)
    ensures Plug(Graft(inner, k), t) == Plug(k, Plug(inner, t))
    decreases inner
  {
    match inner
    case Top =>
    case InLeft(up, e, c, r) => GraftPlug(up, k, Node(t, e, c, r));
    case InRight(up, l, e, c) => GraftPlug(up, k, Node(l, e, c, t));
  }

  /** Balance does not look at which entry sits in a node. */
  lemma {:induction false} GraftBalanced(inner: Ctx, k: Ctx, l: Tree, e: Entry, m: Entry, c: Color, h: nat)
    requires CtxBalanced(Graft(inner, InRight(k, l, e, c)), h)
    ensures CtxBalanced(Graft(inner, InRight(k, l, m, c)), h)
    decreases inner
  {
    match inner
    case Top =>
    case InLeft(up, _, d, r) => GraftBalanced(up, k, l, e, m, c, h + Count(d));
    case InRight(up, _, _, d) => GraftBalanced(up, k, l, e, m, c, h + Count(d));
  }

  /** The writes that put `m` in the place of `gone`. */
  ghost predicate Replaced(s: Store, s': Store, k: Ctx, gone: Entry, m: Entry) {
    && gone in s && m in s' && s'[m] == s[gone]
    && ChildReplaced(s, s', k, m)
    && var l, r := s[gone].left, s[gone].right;
    && (l != null ==> l in s && l in s' && s'[l] == s[l].(parent := m))
    && (r != null ==> r in s && r in s' && s'[r] == s[r].(parent := m))
    && (forall e :: e in s && e != m && e != Up(k) && e != l && e != r ==> e in s' && s'[e] == s[e])
  }

  /** What transplanting reads and writes: different members, and none of them `m`. */
  lemma TransplantAliases(s: Store, k: Ctx, t: Tree)
    requires t.Node? && t.left.Node? && IsTree(s, null, Plug(k, t)) && Sorted(Inorder(Plug(k, t)))
    ensures var e, p, l, r := t.elm, Up(k), t.left.elm, Ptr(t.right);
            && e in s && s[e].parent == p && s[e].left == l && s[e].right == r
            && l in s && l != e && l != p && l != r && l in Elems(Plug(k, t)) && e in Elems(Plug(k, t))
            && (r != null ==> r in s && r != e && r != p && r in Elems(Plug(k, t)))
            && (p != null ==> p in s && p != e && p in Elems(Plug(k, t)) && (k.InLeft? <==> s[p].left == e))
            && (k.Top? <==> p == null)
  {
    Neighbours(s, k, t);
    PlugElems(k, t);
    assert t.right.Node? ==> t.right.elm in Elems(t.right);
    assert t.left.elm in Elems(t.left);
  }

  /** The successor `m`, out of the tree already, takes the place of `t.elm`. */
  lemma TransplantTree(s: Store, s': Store, k: Ctx, t: Tree, m: Entry)
    requires t.Node? && IsTree(s, null, Plug(k, t)) && Sorted(Inorder(Plug(k, t)))
    requires m !in Elems(Plug(k, t)) && Replaced(s, s', k, t.elm, m)
    ensures IsTree(s', null, Plug(k, t.(elm := m)))
    ensures Ptr(Plug(k, t.(elm := m))) == if k.Top? then m else Ptr(Plug(k, t))
  {
    Neighbours(s, k, t);
    PlugElems(k, t);
    PlugDistinct(k, t);
    ReplaceChild(s, s', k, t.elm, m, Elems(t));
    Reparent(s, s', t.elm, m, t.left);
    Reparent(s, s', t.elm, m, t.right);
    PlugIsTree(s', k, t.(elm := m));
    PlugPtr(k, t, t.(elm := m));
  }

  /** Only left turns: the hole is at the least entry. */
  predicate Leftmost(k: Ctx) {
    k.Top? || (k.InLeft? && Leftmost(k.up))
  }

  lemma {:induction false} LeftmostBefore(k: Ctx)
    requires Leftmost(k)
    ensures Before(k) == []
    decreases k
  {
    if k.InLeft? {
      LeftmostBefore(k.up);
    }
  }

  lemma SuccessorFirst(inner: Ctx, te: Tree)
    requires te.Node? && te.left.Leaf? && Leftmost(inner)
    ensures Inorder(Plug(inner, te)) == [te.elm] + Inorder(Plug(inner, te.right))
  {
    LeftmostBefore(inner);
    PlugInorder(inner, te);
    PlugInorder(inner, te.right);
  }

  lemma RegroupFirst(b: seq<Entry>, l: seq<Entry>, x: seq<Entry>, m: seq<Entry>, r: seq<Entry>, a: seq<Entry>)
    ensures b + (l + x + (m + r)) + a == b + l + x + (m + (r + a))
    ensures b + (l + m + r) + a == b + l + (m + (r + a))
  {
  }

  /** With the successor `te.elm` moved into the place of `sub.elm`, the order is the old
      one without `sub.elm`. */
  lemma SuccessorInorder(k: Ctx, sub: Tree, inner: Ctx, te: Tree)
    requires sub.Node? && te.Node? && te.left.Leaf? && Leftmost(inner) && sub.right == Plug(inner, te)
    ensures var a := Before(k) + Inorder(sub.left);
            var b := [te.elm] + (Inorder(Plug(inner, te.right)) + After(k));
            Inorder(Plug(k, sub)) == a + [sub.elm] + b
            && Inorder(Plug(k, sub.(elm := te.elm, right := Plug(inner, te.right)))) == a + b
  {
    SuccessorFirst(inner, te);
    PlugInorder(k, sub);
    PlugInorder(k, sub.(elm := te.elm, right := Plug(inner, te.right)));
    RegroupFirst(Before(k), Inorder(sub.left), [sub.elm], [te.elm], Inorder(Plug(inner, te.right)), After(k));
  }

  lemma SuccessorSpec(k: Ctx, sub: Tree, inner: Ctx, te: Tree)
    requires sub.Node? && te.Node? && te.left.Leaf? && Leftmost(inner) && sub.right == Plug(inner, te)
    requires Sorted(Inorder(Plug(k, sub)))
    ensures var t := Plug(k, sub.(elm := te.elm, right := Plug(inner, te.right)));
            Sorted(Inorder(t)) && Elems(t) == Elems(Plug(k, sub)) - {sub.elm}
  {
    SuccessorInorder(k, sub, inner, te);
    DropSorted(Before(k) + Inorder(sub.left), sub.elm, [te.elm] + (Inorder(Plug(inner, te.right)) + After(k)));
    ElemsInorder(Plug(k, sub));
    ElemsInorder(Plug(k, sub.(elm := te.elm, right := Plug(inner, te.right))));
  }

  lemma SuccessorBalanced(k: Ctx, sub: Tree, inner: Ctx, te: Tree)
    requires sub.Node? && te.Node? && te.left.Leaf? && sub.right == Plug(inner, te)
    requires RedBlack(Plug(k, sub))
    ensures var k' := Graft(inner, InRight(k, sub.left, te.elm, sub.color));
            Balanced(te.right) && Nearly(te.right) && CtxBalanced(k', BlackHeight(te.right) + Count(te.color))
            && (te.color == Red ==> RedBlack(Plug(k', te.right)))
  {
    var k1 := Graft(inner, InRight(k, sub.left, sub.elm, sub.color));
    GraftPlug(inner, InRight(k, sub.left, sub.elm, sub.color), te);
    UnlinkBalanced(k1, te);
    GraftBalanced(inner, k, sub.left, sub.elm, te.elm, sub.color, BlackHeight(te.right) + Count(te.color));
    if te.color == Red {
      PlugRedBlack(k1, te);
      PlugRedBlack(Graft(inner, InRight(k, sub.left, te.elm, sub.color)), te.right);
      GraftTop(inner, k, sub.left, te.elm, sub.color);
      GraftTop(inner, k, sub.left, sub.elm, sub.color);
    }
  }

  lemma GraftTop(inner: Ctx, k: Ctx, l: Tree, e: Entry, c: Color)
    ensures !Graft(inner, InRight(k, l, e, c)).Top?
    ensures Up(Graft(inner, InRight(k, l, e, c))) == if inner.Top? then e else inner.elm
  {
  }

  /** The successor hung right below the removed entry just when it was its right child. */
  lemma SuccessorParent(k: Ctx, sub: Tree, inner: Ctx, te: Tree)
    requires sub.Node? && te.Node? && sub.right == Plug(inner, te) && Sorted(Inorder(Plug(k, sub)))
    ensures Up(Graft(inner, InRight(k, sub.left, sub.elm, sub.color))) == sub.elm <==> inner.Top?
    ensures Up(Graft(inner, InRight(k, sub.left, te.elm, sub.color)))
         == if inner.Top? then te.elm else Up(Graft(inner, InRight(k, sub.left, sub.elm, sub.color)))
  {
    SortedDistinct(Plug(k, sub));
    PlugDistinct(k, sub);
    PlugElems(inner, te);
    GraftTop(inner, k, sub.left, sub.elm, sub.color);
    GraftTop(inner, k, sub.left, te.elm, sub.color);
  }

  /** Where a member is: its context and subtree, by its place in the order. */
  lemma {:induction false} PlaceOf(t: Tree, i: nat) returns (k: Ctx, sub: Tree)
    requires i < |Inorder(t)|
    ensures t == Plug(k, sub) && sub.Node? && sub.elm == Inorder(t)[i]
    ensures |Before(k)| + |Inorder(sub.left)| == i
    decreases t
  {
    k, sub := PlaceBelow(Top, t, i);
  }

  lemma {:induction false} PlaceBelow(k0: Ctx, t: Tree, i: nat) returns (k: Ctx, sub: Tree)
    requires i < |Inorder(t)|
    ensures Plug(k0, t) == Plug(k, sub) && sub.Node? && sub.elm == Inorder(t)[i]
    ensures |Before(k)| + |Inorder(sub.left)| == |Before(k0)| + i
    decreases t
  {
    var n := |Inorder(t.left)|;
    if i < n {
      k, sub := PlaceBelow(InLeft(k0, t.elm, t.color, t.right), t.left, i);
    } else if i == n {
      k, sub := k0, t;
    } else {
      k, sub := PlaceBelow(InRight(k0, t.left, t.elm, t.color), t.right, i - n - 1);
    }
  }

  // ---- making up a missing black ----------------------------------------------

  // ---- the hole on the left --------------------------------------------------

  /** The context after a red sibling has been rotated above the parent. */
  function LoweredLeft(k: Ctx): Ctx
    requires k.InLeft? && k.right.Node?
  {
    var w := k.right;
    InLeft(InLeft(k.up, w.elm, Black, w.right), k.elm, Red, w.left)
  }

  lemma LoweredLeftBalanced(k: Ctx, h: nat)
    requires k.InLeft? && IsRed(k.right) && CtxBalanced(k, h) && h > 0
    ensures CtxBalanced(LoweredLeft(k), h) && LoweredLeft(k).right.Node? && !IsRed(LoweredLeft(k).right)
  {
  }

  /** The sibling with its red child on the far side. */
  function TurnedLeft(w: Tree): Tree
    requires w.Node? && (!IsRed(w.right) ==> w.left.Node?)
  {
    if IsRed(w.right) then w else RotR(Node(Paint(w.left, Black), w.elm, Red, w.right))
  }

  /** The subtree that makes up the missing black. */
  function RepairedLeft(k: Ctx, te: Tree): Tree
    requires k.InLeft? && k.right.Node? && (IsRed(k.right.left) || IsRed(k.right.right))
  {
    var w := TurnedLeft(k.right);
    RotL(Node(te, k.elm, Black, Node(w.left, w.elm, k.color, Paint(w.right, Black))))
  }

  lemma TurnedLeftBalanced(w: Tree)
    requires w.Node? && Balanced(w) && w.color == Black && (IsRed(w.left) || IsRed(w.right))
    ensures var w' := TurnedLeft(w);
            Balanced(w'.left) && Balanced(w'.right) && IsRed(w'.right)
            && BlackHeight(w'.left) == BlackHeight(w'.right) == BlackHeight(w) - 1
  {
    if !IsRed(w.right) {
      var n := w.left;
      assert Balanced(n.left) && Balanced(n.right) && BlackHeight(n.left) == BlackHeight(n.right);
    }
  }

  lemma RepairedLeftBalanced(k: Ctx, te: Tree)
    requires k.InLeft? && k.right.Node? && !IsRed(k.right) && (IsRed(k.right.left) || IsRed(k.right.right))
    requires Balanced(te) && CtxBalanced(k, BlackHeight(te) + 1)
    ensures RedBlack(Plug(k.up, RepairedLeft(k, te)))
  {
    TurnedLeftBalanced(k.right);
    var w, p := TurnedLeft(k.right), RepairedLeft(k, te);
    assert Balanced(p.left) && BlackHeight(p.left) == BlackHeight(te) + 1;
    assert Balanced(p.right) && BlackHeight(p.right) == BlackHeight(te) + 1;
    assert Balanced(p) && BlackHeight(p) == BlackHeight(te) + 1 + Count(k.color);
    PlugRedBlack(k.up, RepairedLeft(k, te));
  }

  // ---- the hole on the right --------------------------------------------------

  /** The context after a red sibling has been rotated above the parent. */
  function LoweredRight(k: Ctx): Ctx
    requires k.InRight? && k.left.Node?
  {
    var w := k.left;
    InRight(InRight(k.up, w.left, w.elm, Black), w.right, k.elm, Red)
  }

  lemma LoweredRightBalanced(k: Ctx, h: nat)
    requires k.InRight? && IsRed(k.left) && CtxBalanced(k, h) && h > 0
    ensures CtxBalanced(LoweredRight(k), h) && LoweredRight(k).left.Node? && !IsRed(LoweredRight(k).left)
  {
  }

  /** The sibling with its red child on the far side. */
  function TurnedRight(w: Tree): Tree
    requires w.Node? && (!IsRed(w.left) ==> w.right.Node?)
  {
    if IsRed(w.left) then w else RotL(Node(w.left, w.elm, Red, Paint(w.right, Black)))
  }

  /** The subtree that makes up the missing black. */
  function RepairedRight(k: Ctx, te: Tree): Tree
    requires k.InRight? && k.left.Node? && (IsRed(k.left.right) || IsRed(k.left.left))
  {
    var w := TurnedRight(k.left);
    RotR(Node(Node(Paint(w.left, Black), w.elm, k.color, w.right), k.elm, Black, te))
  }

  lemma TurnedRightBalanced(w: Tree)
    requires w.Node? && Balanced(w) && w.color == Black && (IsRed(w.left) || IsRed(w.right))
    ensures var w' := TurnedRight(w);
            Balanced(w'.left) && Balanced(w'.right) && IsRed(w'.left)
            && BlackHeight(w'.left) == BlackHeight(w'.right) == BlackHeight(w) - 1
  {
    if !IsRed(w.left) {
      var n := w.right;
      assert Balanced(n.left) && Balanced(n.right) && BlackHeight(n.left) == BlackHeight(n.right);
    }
  }

  lemma RepairedRightBalanced(k: Ctx, te: Tree)
    requires k.InRight? && k.left.Node? && !IsRed(k.left) && (IsRed(k.left.right) || IsRed(k.left.left))
    requires Balanced(te) && CtxBalanced(k, BlackHeight(te) + 1)
    ensures RedBlack(Plug(k.up, RepairedRight(k, te)))
  {
    TurnedRightBalanced(k.left);
    var w, p := TurnedRight(k.left), RepairedRight(k, te);
    assert Balanced(p.right) && BlackHeight(p.right) == BlackHeight(te) + 1;
    assert Balanced(p.left) && BlackHeight(p.left) == BlackHeight(te) + 1;
    assert Balanced(p) && BlackHeight(p) == BlackHeight(te) + 1 + Count(k.color);
    PlugRedBlack(k.up, RepairedRight(k, te));
  }

  /** The loop guard's test for the root is the test for the empty context. */
  lemma RootIs(k: Ctx, t: Tree)
    requires Sorted(Inorder(Plug(k, t)))
    ensures Ptr(t) == Ptr(Plug(k, t)) <==> k.Top?
  {
    if !k.Top? {
      PlugPtr(k, t, Leaf);
      PlugNode(k, Leaf);
      PlugElems(k, Leaf);
      SortedDistinct(Plug(k, t));
      PlugDistinct(k, t);
      CtxDisjoint(k, Elems(t));
    }
  }

  /** A black sibling without red children turns red: now the parent is one black short. */
  lemma RecolouredBalanced(k: Ctx, te: Tree)
    requires !k.Top? && Nearly(te) && !IsRed(te) && CtxBalanced(k, BlackHeight(te) + 1)
    requires var w := if k.InLeft? then k.right else k.left;
             w.Node? && !IsRed(w) && !IsRed(w.left) && !IsRed(w.right)
    ensures var te' := if k.InLeft? then Node(te, k.elm, k.color, Paint(k.right, Red))
                       else Node(Paint(k.left, Red), k.elm, k.color, te);
            Nearly(te') && CtxBalanced(k.up, BlackHeight(te') + 1)
  {
  }

  /** Where a black is missing the hole has a sibling, and its colour can be read. */
  lemma SiblingFields(s: Store, k: Ctx, t: Tree)
    requires !k.Top? && IsTree(s, null, Plug(k, t)) && CtxBalanced(k, BlackHeight(t) + 1)
    ensures k.elm in s && s[k.elm].color == k.color
    ensures k.InLeft? ==> k.right.Node? && s[k.elm].right == k.right.elm
                          && k.right.elm in s && s[k.right.elm].color == k.right.color
    ensures k.InRight? ==> k.left.Node? && s[k.elm].left == k.left.elm
                           && k.left.elm in s && s[k.left.elm].color == k.left.color
  {
    Focus(s, k, t);
  }

  /** Which child an empty or black hole is, where a black is missing. */
  lemma WhichHole(s: Store, k: Ctx, t: Tree)
    requires !k.Top? && IsTree(s, null, Plug(k, t)) && Sorted(Inorder(Plug(k, t)))
    requires CtxBalanced(k, BlackHeight(t) + 1)
    ensures k.elm in s && (k.InLeft? <==> s[k.elm].left == Ptr(t))
  {
    Focus(s, k, t);
    if t.Node? {
      WhichChild(s, k, t);
    }
  }

  /** The last assignment of RB_REMOVE_COLOR completes the tree: a red entry that was one
      black short turns black, and the root may be any colour. */
  lemma PaintBlackRedBlack(k: Ctx, t: Tree, done: bool)
    requires t.Node? && if done then k.Top? && RedBlack(t) else Nearly(t) && CtxBalanced(k, BlackHeight(t) + 1)
    requires k.Top? || IsRed(t) || done
    ensures RedBlack(Plug(k, Paint(t, Black)))
  {
    PlugRedBlack(k, Paint(t, Black));
  }

  // ---- links point both ways ------------------------------------------------

  /** Parent and child fields of the members agree: a child's parent is the member, and a
      member other than the top one is a child of its parent. */
  ghost predicate Mutual(s: Store, parent: Entry?, t: Tree) {
    forall e :: e in Elems(t) ==>
      && e in s
      && (var l := s[e].left; l != null ==> l in s && s[l].parent == e)
      && (var r := s[e].right; r != null ==> r in s && s[r].parent == e)
      && (var p := s[e].parent;
          if e == Ptr(t) then p == parent else p != null && p in s && (s[p].left == e || s[p].right == e))
  }

  lemma {:induction false} MutualLinks(s: Store, parent: Entry?, t: Tree)
    requires IsTree(s, parent, t) && Distinct(t)
    ensures Mutual(s, parent, t)
    decreases t
  {
    match t
    case Leaf =>
    case Node(l, e, c, r) =>
      MutualLinks(s, e, l);
      MutualLinks(s, e, r);
  }
}
