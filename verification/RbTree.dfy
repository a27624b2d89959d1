/** The red-black tree of src/tree.h, on entries with parent pointers. */
module RbTree {
  import opened Entries
  import opened RbShape
  import opened RbBalance
  import opened RbRotate
  import opened RbSearch
  import opened RbRemove

  /** The tree fields of the entries in `S`, now. */
  ghost function Cells(S: set<Entry>): (s: Store)
    reads S`left, S`right, S`parent, S`color
    ensures s.Keys == S
  {
    map e | e in S :: Cell(e.left, e.right, e.parent, e.color)
  }

  class RbTree {
    var root: Entry?
    ghost var t: Tree

    constructor ()
      ensures Valid() && t == Leaf
    {
      root := null;
      t := Leaf;
    }

    /** The fields of the entries in `S` spell the tree `t`, and `t` is in key order. */
    ghost predicate Spells(S: set<Entry>)
      reads this, S`left, S`right, S`parent, S`color
    {
      root == Ptr(t) && IsTree(Cells(S), null, t) && Sorted(Inorder(t))
    }

    /** A red-black tree in key order, and the members' fields are its links. */
    ghost predicate Valid()
      reads this, Elems(t)`left, Elems(t)`right, Elems(t)`parent, Elems(t)`color
    {
      Spells(Elems(t)) && RedBlack(t)
    }

    lemma Widen(S: set<Entry>)
      requires Spells(Elems(t)) && Elems(t) <= S
      ensures Spells(S)
    {
      FrameTree(Cells(Elems(t)), Cells(S), null, t);
    }

    lemma Narrow(S: set<Entry>)
      requires Spells(S) && Elems(t) <= S
      ensures Spells(Elems(t))
    {
      FrameTree(Cells(S), Cells(Elems(t)), null, t);
    }

    /** RB_ROTATE_LEFT: the assignments. */
    method RotateLeft(elm: Entry, ghost S: set<Entry>, ghost k: Ctx, ghost sub: Tree)
      returns (tmp: Entry)
      requires Spells(S) && t == Plug(k, sub)
      requires sub.Node? && sub.elm == elm && sub.right.Node?
      modifies this`root, S`left, S`right, S`parent
      ensures tmp == sub.right.elm && root == (if k.Top? then tmp else old(root))
      ensures LeftRotated(old(Cells(S)), Cells(S), k, elm, tmp)
    {
      RotateLeftAliases(Cells(S), k, sub);
      tmp := elm.right;
      elm.right := tmp.left;
      if tmp.left != null {
        tmp.left.parent := elm;
      }
      tmp.parent := elm.parent;
      if elm.parent != null {
        if elm == elm.parent.left {
          elm.parent.left := tmp;
        } else {
          elm.parent.right := tmp;
        }
      } else {
        root := tmp;
      }
      tmp.left := elm;
      elm.parent := tmp;
    }

    /** A left rotation, with what it does to the tree: the subtree `sub` in the context
        `k` becomes its rotation, and the order of the entries stays. */
    method RotateLeftAt(elm: Entry, ghost S: set<Entry>, ghost k: Ctx, ghost sub: Tree)
      returns (tmp: Entry)
      requires Spells(S) && t == Plug(k, sub)
      requires sub.Node? && sub.elm == elm && sub.right.Node?
      modifies this, S`left, S`right, S`parent
      ensures Spells(S) && t == Plug(k, RotL(sub)) && Inorder(t) == old(Inorder(t))
      ensures tmp == sub.right.elm
    {
      ghost var s := Cells(S);
      tmp := RotateLeft(elm, S, k, sub);
      RotateLeftTree(s, Cells(S), k, sub);
      t := Plug(k, RotL(sub));
    }

    /** RB_ROTATE_RIGHT: the assignments. */
    method RotateRight(elm: Entry, ghost S: set<Entry>, ghost k: Ctx, ghost sub: Tree)
      returns (tmp: Entry)
      requires Spells(S) && t == Plug(k, sub)
      requires sub.Node? && sub.elm == elm && sub.left.Node?
      modifies this`root, S`left, S`right, S`parent
      ensures tmp == sub.left.elm && root == (if k.Top? then tmp else old(root))
      ensures RightRotated(old(Cells(S)), Cells(S), k, elm, tmp)
    {
      RotateRightAliases(Cells(S), k, sub);
      tmp := elm.left;
      elm.left := tmp.right;
      if tmp.right != null {
        tmp.right.parent := elm;
      }
      tmp.parent := elm.parent;
      if elm.parent != null {
        if elm == elm.parent.left {
          elm.parent.left := tmp;
        } else {
          elm.parent.right := tmp;
        }
      } else {
        root := tmp;
      }
      tmp.right := elm;
      elm.parent := tmp;
    }

    /** A right rotation, with what it does to the tree: the subtree `sub` in the context
        `k` becomes its rotation, and the order of the entries stays. */
    method RotateRightAt(elm: Entry, ghost S: set<Entry>, ghost k: Ctx, ghost sub: Tree)
      returns (tmp: Entry)
      requires Spells(S) && t == Plug(k, sub)
      requires sub.Node? && sub.elm == elm && sub.left.Node?
      modifies this, S`left, S`right, S`parent
      ensures Spells(S) && t == Plug(k, RotR(sub)) && Inorder(t) == old(Inorder(t))
      ensures tmp == sub.left.elm
    {
      ghost var s := Cells(S);
      tmp := RotateRight(elm, S, k, sub);
      RotateRightTree(s, Cells(S), k, sub);
      t := Plug(k, RotR(sub));
    }

    /** An assignment to RB_COLOR. */
    method SetColor(elm: Entry, c: Color, ghost S: set<Entry>, ghost k: Ctx, ghost sub: Tree)
      requires Spells(S) && t == Plug(k, sub) && sub.Node? && sub.elm == elm
      modifies this`t, S`color
      ensures Spells(S) && t == Plug(k, Paint(sub, c)) && Inorder(t) == old(Inorder(t))
    {
      ghost var s := Cells(S);
      Focus(s, k, sub);
      elm.color := c;
      PaintTree(s, Cells(S), k, sub, c);
      t := Plug(k, Paint(sub, c));
    }

    /** The recolouring step of RB_INSERT_COLOR: `a` and `b` are the children of `g`. */
    method PushBlackAt(a: Entry, b: Entry, g: Entry, ghost S: set<Entry>, ghost k: Ctx, ghost sub: Tree)
      requires Spells(S) && t == Plug(k, sub)
      requires sub.Node? && sub.elm == g && sub.left.Node? && sub.right.Node?
      requires (a, b) == (sub.left.elm, sub.right.elm) || (b, a) == (sub.left.elm, sub.right.elm)
      modifies this`t, S`color
      ensures Spells(S) && t == Plug(k, PushBlack(sub)) && Inorder(t) == old(Inorder(t))
    {
      ghost var l, r, c := sub.left, sub.right, sub.color;
      ghost var aLeft := a == l.elm;
      SetColor(a, Black, S, if aLeft then InLeft(k, g, c, r) else InRight(k, l, g, c), if aLeft then l else r);
      SetColor(b, Black, S, if aLeft then InRight(k, Paint(l, Black), g, c) else InLeft(k, g, c, Paint(r, Black)),
               if aLeft then r else l);
      SetColor(g, Red, S, k, Node(Paint(l, Black), g, c, Paint(r, Black)));
    }

    /** The loop invariant of RB_INSERT_COLOR: `elm` heads the red subtree `te`, balanced in
        itself, and the rest of the tree is in order but for what hangs it from. */
    ghost predicate RedAt(elm: Entry?, S: set<Entry>, k: Ctx, te: Tree)
      reads this, S`left, S`right, S`parent, S`color
    {
      && Spells(S) && t == Plug(k, te)
      && te.Node? && te.elm == elm && te.color == Red
      && Balanced(te) && CtxBalanced(k, BlackHeight(te))
    }

    /** The rotating step of RB_INSERT_COLOR for a parent that is a left child. */
    method InsertRotateLeft(elm0: Entry, parent0: Entry, gparent: Entry,
                        ghost S: set<Entry>, ghost k0: Ctx, ghost te0: Tree)
      returns (elm: Entry, ghost k: Ctx, ghost te: Tree)
      requires RedAt(elm0, S, k0, te0) && CtxRed(k0) && k0.up.InLeft?
      requires parent0 == k0.elm && gparent == k0.up.elm && !IsRed(k0.up.right)
      modifies this, S`left, S`right, S`parent, S`color
      ensures RedAt(elm, S, k, te) && Inorder(t) == old(Inorder(t)) && !CtxRed(k) && Depth(k) < Depth(k0)
    {
      elm, k, te := elm0, k0, te0;
      var tmp: Entry;
      var parent := parent0;
      ghost var tp, kg := Fill(k, te), k.up.up;
      Focus(Cells(S), k, te);
      WhichChild(Cells(S), k, te);
      if parent.right == elm {
        tmp := RotateLeftAt(parent, S, k.up, tp);
        tp := RotL(tp);
        tmp := parent;
        parent := elm;
        elm := tmp;
      }
      SetColor(parent, Black, S, k.up, tp);
      tp := Paint(tp, Black);
      SetColor(gparent, Red, S, kg, Fill(k.up, tp));
      ghost var tg := Paint(Fill(k.up, tp), Red);
      tmp := RotateRightAt(gparent, S, kg, tg);
      LiftedLeftBalanced(k0, te0);
      k, te := LiftedLeft(k0, te0), tp.left;
    }

    /** The rotating step of RB_INSERT_COLOR for a parent that is a right child. */
    method InsertRotateRight(elm0: Entry, parent0: Entry, gparent: Entry,
                        ghost S: set<Entry>, ghost k0: Ctx, ghost te0: Tree)
      returns (elm: Entry, ghost k: Ctx, ghost te: Tree)
      requires RedAt(elm0, S, k0, te0) && CtxRed(k0) && k0.up.InRight?
      requires parent0 == k0.elm && gparent == k0.up.elm && !IsRed(k0.up.left)
      modifies this, S`left, S`right, S`parent, S`color
      ensures RedAt(elm, S, k, te) && Inorder(t) == old(Inorder(t)) && !CtxRed(k) && Depth(k) < Depth(k0)
    {
      elm, k, te := elm0, k0, te0;
      var tmp: Entry;
      var parent := parent0;
      ghost var tp, kg := Fill(k, te), k.up.up;
      Focus(Cells(S), k, te);
      WhichChild(Cells(S), k, te);
      if parent.left == elm {
        tmp := RotateRightAt(parent, S, k.up, tp);
        tp := RotR(tp);
        tmp := parent;
        parent := elm;
        elm := tmp;
      }
      SetColor(parent, Black, S, k.up, tp);
      tp := Paint(tp, Black);
      SetColor(gparent, Red, S, kg, Fill(k.up, tp));
      ghost var tg := Paint(Fill(k.up, tp), Red);
      tmp := RotateLeftAt(gparent, S, kg, tg);
      LiftedRightBalanced(k0, te0);
      k, te := LiftedRight(k0, te0), tp.right;
    }

    /** The last assignment of RB_INSERT_COLOR. */
    method BlackenRoot(ghost S: set<Entry>, ghost k: Ctx, ghost te: Tree)
      requires Spells(S) && t == Plug(k, te) && te.Node?
      requires Balanced(te) && CtxBalanced(k, BlackHeight(te)) && (IsRed(te) ==> !CtxRed(k))
      modifies this`t, S`color
      ensures Spells(S) && RedBlack(t) && Inorder(t) == old(Inorder(t))
    {
      PlugBalanced(k, te);
      SetColor(root, Black, S, Top, t);
    }

    /** The body of RB_INSERT_COLOR's loop. */
    method InsertStep(elm0: Entry, ghost S: set<Entry>, ghost k0: Ctx, ghost te0: Tree)
      returns (elm: Entry, ghost k: Ctx, ghost te: Tree)
      requires RedAt(elm0, S, k0, te0) && CtxRed(k0) && elm0 in S && elm0.parent == Up(k0)
      modifies this, S`left, S`right, S`parent, S`color
      ensures RedAt(elm, S, k, te) && Inorder(t) == old(Inorder(t)) && Depth(k) < Depth(k0)
    {
      elm, k, te := elm0, k0, te0;
      GrandFields(Cells(S), k, te);
      var parent := elm.parent;
      var gparent := parent.parent;
      ghost var kg, tg := k.up.up, Grand(k, te);
      if parent == gparent.left {
        var tmp := gparent.right;
        if tmp != null && tmp.color == Red {
          PushBlackBalanced(k, te);
          PushBlackAt(tmp, parent, gparent, S, kg, tg);
          elm, k, te := gparent, kg, PushBlack(tg);
        } else {
          elm, k, te := InsertRotateLeft(elm, parent, gparent, S, k, te);
        }
      } else {
        var tmp := gparent.left;
        if tmp != null && tmp.color == Red {
          PushBlackBalanced(k, te);
          PushBlackAt(tmp, parent, gparent, S, kg, tg);
          elm, k, te := gparent, kg, PushBlack(tg);
        } else {
          elm, k, te := InsertRotateRight(elm, parent, gparent, S, k, te);
        }
      }
    }

    /** RB_INSERT_COLOR: `elm0` heads a red subtree that may hang from a red parent. */
    method InsertColor(elm0: Entry, ghost S: set<Entry>, ghost k0: Ctx, ghost te0: Tree)
      requires RedAt(elm0, S, k0, te0)
      modifies this, S`left, S`right, S`parent, S`color
      ensures Spells(S) && RedBlack(t) && Inorder(t) == old(Inorder(t))
    {
      var elm: Entry? := elm0;
      ghost var k, te := k0, te0;
      HoleFields(Cells(S), k, te);
      while elm.parent != null && elm.parent.color == Red
        invariant RedAt(elm, S, k, te) && Inorder(t) == old(Inorder(t)) && elm in S
        invariant elm.parent == Up(k) && (Up(k) != null ==> Up(k) in S && Up(k).color == k.color)
        decreases Depth(k)
      {
        elm, k, te := InsertStep(elm, S, k, te);
        HoleFields(Cells(S), k, te);
      }
      BlackenRoot(S, k, te);
    }

    /** RB_SET and the assignment that hangs the new entry below `parent`. */
    method Attach(elm: Entry, parent: Entry?, left: bool, ghost S: set<Entry>, ghost k: Ctx)
      requires Spells(S) && t == Plug(k, Leaf) && elm in S && elm !in Elems(t)
      requires Splits(k, elm.key) && parent == Up(k) && (!k.Top? ==> (left <==> k.InLeft?))
      modifies this, S`left, S`right, S`parent, S`color
      ensures Spells(S) && t == Plug(k, Node(Leaf, elm, Red, Leaf)) && Elems(t) == old(Elems(t)) + {elm}
    {
      hide IsTree; hide IsCtx; hide Sorted; hide Inorder;
      ghost var s := Cells(S);
      HoleFields(s, k, Leaf);
      elm.parent := parent;
      elm.left := null;
      elm.right := null;
      elm.color := Red;
      if parent != null {
        if left {
          parent.left := elm;
        } else {
          parent.right := elm;
        }
      } else {
        root := elm;
      }
      AttachTree(s, Cells(S), k, elm);
      Missed(k, elm, Red);
      t := Plug(k, Node(Leaf, elm, Red, Leaf));
    }

    /** The search loop of RB_INSERT: a member with the key, or the place where one belongs. */
    method Descend(key: int) returns (tmp: Entry?, parent: Entry?, less: bool, ghost k: Ctx)
      requires Valid()
      ensures tmp != null ==> tmp in Elems(t) && tmp.key == key
      ensures tmp == null ==> t == Plug(k, Leaf) && parent == Up(k) && Splits(k, key)
      ensures tmp == null && !k.Top? ==> (less <==> k.InLeft?)
    {
      ghost var S := Elems(t);
      assert Spells(S);
      tmp, parent, less := root, null, false;
      k := Top;
      ghost var te := t;
      while tmp != null
        invariant t == Plug(k, te) && tmp == Ptr(te) && parent == Up(k)
        invariant Splits(k, key) && (!k.Top? ==> (less <==> k.InLeft?))
        decreases te
      {
        assert Spells(S);
        Focus(Cells(S), k, te);
        MemberAt(k, te);
        parent := tmp;
        if key < parent.key {
          GoLeft(k, te, key);
          less, tmp := true, tmp.left;
          k, te := InLeft(k, te.elm, te.color, te.right), te.left;
        } else if key > parent.key {
          GoRight(k, te, key);
          less, tmp := false, tmp.right;
          k, te := InRight(k, te.left, te.elm, te.color), te.right;
        } else {
          return;
        }
      }
    }

    /** RB_INSERT: a member with the same key is returned and nothing changes, or the new
        entry, and no other, joins the tree. */
    method Insert(elm: Entry) returns (r: Entry?)
      requires Valid()
      modifies this, (Elems(t) + {elm})`left, (Elems(t) + {elm})`right,
               (Elems(t) + {elm})`parent, (Elems(t) + {elm})`color
      ensures Valid()
      ensures r != null ==> r in Elems(t) && r.key == elm.key && t == old(t)
      ensures r != null ==> unchanged(this) && unchanged(elm) && Cells(Elems(t)) == old(Cells(Elems(t)))
      ensures r == null ==> (forall e :: e in old(Elems(t)) ==> e.key != elm.key)
      ensures r == null ==> Elems(t) == old(Elems(t)) + {elm}
    {
      ghost var M, S := Elems(t), Elems(t) + {elm};
      var tmp, parent, less, k := Descend(elm.key);
      assert Spells(M) && Cells(M) == old(Cells(Elems(t)));
      if tmp != null {
        return tmp;
      }
      Widen(S);
      MissedKey(k, elm.key);
      AttachBalanced(k, elm);
      Attach(elm, parent, less, S, k);
      ElemsInorder(t);
      InsertColor(elm, S, k, Node(Leaf, elm, Red, Leaf));
      ElemsInorder(t);
      Narrow(S);
      r := null;
    }

    /** RB_REMOVE_COLOR, hole on the left: a red sibling is rotated away. */
    method RedSiblingLeft(parent: Entry, sibling: Entry, ghost S: set<Entry>, ghost k: Ctx, ghost te: Tree)
      requires Spells(S) && t == Plug(k, te) && k.InLeft? && k.elm == parent
      requires k.right.Node? && k.right.elm == sibling
      modifies this, S`left, S`right, S`parent, S`color
      ensures Spells(S) && t == Plug(LoweredLeft(k), te) && Inorder(t) == old(Inorder(t))
    {
      ghost var w, c := k.right, k.color;
      SetColor(sibling, Black, S, InRight(k.up, te, parent, c), w);
      SetColor(parent, Red, S, k.up, Node(te, parent, c, Paint(w, Black)));
      var tmp := RotateLeftAt(parent, S, k.up, Node(te, parent, Red, Paint(w, Black)));
    }

    /** RB_REMOVE_COLOR, hole on the left: the sibling's red child is brought to the far side. */
    method TurnSiblingLeft(parent: Entry, sibling: Entry, ghost S: set<Entry>, ghost k: Ctx, ghost te: Tree)
      returns (tmp: Entry)
      requires Spells(S) && t == Plug(k, te) && k.InLeft? && k.elm == parent
      requires k.right.Node? && k.right.elm == sibling && (IsRed(k.right.left) || IsRed(k.right.right))
      modifies this, S`left, S`right, S`parent, S`color
      ensures var w := TurnedLeft(k.right);
              Spells(S) && t == Plug(InRight(k.up, te, k.elm, k.color), w) && tmp == w.elm
      ensures Inorder(t) == old(Inorder(t))
    {
      tmp := sibling;
      ghost var ks, w := InRight(k.up, te, parent, k.color), k.right;
      NodeFields(Cells(S), ks, w);
      if tmp.right == null || tmp.right.color == Black {
        var nephew := tmp.left;
        if nephew != null {
          SetColor(nephew, Black, S, InLeft(ks, w.elm, w.color, w.right), w.left);
        }
        SetColor(tmp, Red, S, ks, Node(Paint(w.left, Black), w.elm, w.color, w.right));
        nephew := RotateRightAt(tmp, S, ks, Node(Paint(w.left, Black), w.elm, Red, w.right));
        tmp := nephew;
      }
    }

    /** RB_REMOVE_COLOR, hole on the left: the last rotation makes up the missing black. */
    method RepairLeft(parent: Entry, sibling: Entry, ghost S: set<Entry>, ghost k: Ctx, ghost te: Tree)
      requires Spells(S) && t == Plug(k, te) && k.InLeft? && k.elm == parent
      requires k.right.Node? && k.right.elm == sibling && (IsRed(k.right.left) || IsRed(k.right.right))
      modifies this, S`left, S`right, S`parent, S`color
      ensures Spells(S) && t == Plug(k.up, RepairedLeft(k, te)) && Inorder(t) == old(Inorder(t))
    {
      var tmp := TurnSiblingLeft(parent, sibling, S, k, te);
      ghost var c, w := k.color, TurnedLeft(k.right);
      ghost var ks := InRight(k.up, te, parent, c);
      HoleFields(Cells(S), ks, w);
      SetColor(tmp, parent.color, S, ks, w);
      w := Paint(w, c);
      SetColor(parent, Black, S, k.up, Node(te, parent, c, w));
      ks := InRight(k.up, te, parent, Black);
      NodeFields(Cells(S), ks, w);
      if tmp.right != null {
        SetColor(tmp.right, Black, S, InRight(ks, w.left, w.elm, c), w.right);
      }
      tmp := RotateLeftAt(parent, S, k.up, Node(te, parent, Black, Node(w.left, w.elm, c, Paint(w.right, Black))));
    }

    /** RB_REMOVE_COLOR, hole on the right: a red sibling is rotated away. */
    method RedSiblingRight(parent: Entry, sibling: Entry, ghost S: set<Entry>, ghost k: Ctx, ghost te: Tree)
      requires Spells(S) && t == Plug(k, te) && k.InRight? && k.elm == parent
      requires k.left.Node? && k.left.elm == sibling
      modifies this, S`left, S`right, S`parent, S`color
      ensures Spells(S) && t == Plug(LoweredRight(k), te) && Inorder(t) == old(Inorder(t))
    {
      ghost var w, c := k.left, k.color;
      SetColor(sibling, Black, S, InLeft(k.up, parent, c, te), w);
      SetColor(parent, Red, S, k.up, Node(Paint(w, Black), parent, c, te));
      var tmp := RotateRightAt(parent, S, k.up, Node(Paint(w, Black), parent, Red, te));
    }

    /** RB_REMOVE_COLOR, hole on the right: the sibling's red child is brought to the far side. */
    method TurnSiblingRight(parent: Entry, sibling: Entry, ghost S: set<Entry>, ghost k: Ctx, ghost te: Tree)
      returns (tmp: Entry)
      requires Spells(S) && t == Plug(k, te) && k.InRight? && k.elm == parent
      requires k.left.Node? && k.left.elm == sibling && (IsRed(k.left.right) || IsRed(k.left.left))
      modifies this, S`left, S`right, S`parent, S`color
      ensures var w := TurnedRight(k.left);
              Spells(S) && t == Plug(InLeft(k.up, k.elm, k.color, te), w) && tmp == w.elm
      ensures Inorder(t) == old(Inorder(t))
    {
      tmp := sibling;
      ghost var ks, w := InLeft(k.up, parent, k.color, te), k.left;
      NodeFields(Cells(S), ks, w);
      if tmp.left == null || tmp.left.color == Black {
        var nephew := tmp.right;
        if nephew != null {
          SetColor(nephew, Black, S, InRight(ks, w.left, w.elm, w.color), w.right);
        }
        SetColor(tmp, Red, S, ks, Node(w.left, w.elm, w.color, Paint(w.right, Black)));
        nephew := RotateLeftAt(tmp, S, ks, Node(w.left, w.elm, Red, Paint(w.right, Black)));
        tmp := nephew;
      }
    }

    /** RB_REMOVE_COLOR, hole on the right: the last rotation makes up the missing black. */
    method RepairRight(parent: Entry, sibling: Entry, ghost S: set<Entry>, ghost k: Ctx, ghost te: Tree)
      requires Spells(S) && t == Plug(k, te) && k.InRight? && k.elm == parent
      requires k.left.Node? && k.left.elm == sibling && (IsRed(k.left.right) || IsRed(k.left.left))
      modifies this, S`left, S`right, S`parent, S`color
      ensures Spells(S) && t == Plug(k.up, RepairedRight(k, te)) && Inorder(t) == old(Inorder(t))
    {
      var tmp := TurnSiblingRight(parent, sibling, S, k, te);
      ghost var c, w := k.color, TurnedRight(k.left);
      ghost var ks := InLeft(k.up, parent, c, te);
      HoleFields(Cells(S), ks, w);
      SetColor(tmp, parent.color, S, ks, w);
      w := Paint(w, c);
      SetColor(parent, Black, S, k.up, Node(w, parent, c, te));
      ks := InLeft(k.up, parent, Black, te);
      NodeFields(Cells(S), ks, w);
      if tmp.left != null {
        SetColor(tmp.left, Black, S, InLeft(ks, w.elm, c, w.right), w.left);
      }
      tmp := RotateRightAt(parent, S, k.up, Node(Node(Paint(w.left, Black), w.elm, c, w.right), parent, Black, te));
    }

    /** The loop invariant of RB_REMOVE_COLOR: the subtree at `elm`, below `parent`, is one
        black short of what the rest of the tree needs. */
    ghost predicate BlackDue(elm: Entry?, parent: Entry?, S: set<Entry>, k: Ctx, te: Tree)
      reads this, S`left, S`right, S`parent, S`color
    {
      && Spells(S) && t == Plug(k, te) && elm == Ptr(te) && parent == Up(k)
      && Nearly(te) && CtxBalanced(k, BlackHeight(te) + 1)
    }

    /** What shrinks: the way up to the root, until a red entry is met. */
    ghost function Due(k: Ctx, te: Tree): nat {
      if IsRed(te) then 0 else 1 + Depth(k)
    }

    /** The first part of RB_REMOVE_COLOR's loop, hole on the left: the sibling `tmp` is black. */
    method BlackSiblingLeft(parent: Entry, ghost S: set<Entry>, ghost k0: Ctx, ghost te: Tree)
      returns (tmp: Entry, ghost k: Ctx)
      requires BlackDue(Ptr(te), parent, S, k0, te) && k0.InLeft?
      modifies this, S`left, S`right, S`parent, S`color
      ensures BlackDue(Ptr(te), parent, S, k, te) && Inorder(t) == old(Inorder(t))
      ensures k.InLeft? && k.right.Node? && !IsRed(k.right) && k.right.elm == tmp && (k == k0 || CtxRed(k))
    {
      k := k0;
      SiblingFields(Cells(S), k, te);
      tmp := parent.right;
      if tmp.color == Red {
        RedSiblingLeft(parent, tmp, S, k, te);
        LoweredLeftBalanced(k, BlackHeight(te) + 1);
        k := LoweredLeft(k);
        SiblingFields(Cells(S), k, te);
        tmp := parent.right;
      }
    }

    /** The body of RB_REMOVE_COLOR's loop, hole on the left. */
    method RemoveStepLeft(elm0: Entry?, parent0: Entry, ghost S: set<Entry>, ghost k0: Ctx, ghost te0: Tree)
      returns (elm: Entry?, parent: Entry?, done: bool, ghost k: Ctx, ghost te: Tree)
      requires BlackDue(elm0, parent0, S, k0, te0) && !IsRed(te0) && k0.InLeft?
      modifies this, S`left, S`right, S`parent, S`color
      ensures Spells(S) && Inorder(t) == old(Inorder(t))
      ensures done ==> elm == root && k == Top && te == t && RedBlack(t)
      ensures !done ==> BlackDue(elm, parent, S, k, te) && Due(k, te) < Due(k0, te0)
    {
      hide IsTree; hide IsCtx; hide Sorted; hide Inorder;
      var tmp;
      elm, parent, done, te := elm0, parent0, false, te0;
      tmp, k := BlackSiblingLeft(parent, S, k0, te);
      ghost var w, ks := k.right, InRight(k.up, te, k.elm, k.color);
      NodeFields(Cells(S), ks, w);
      if (tmp.left == null || tmp.left.color == Black) && (tmp.right == null || tmp.right.color == Black) {
        RecolouredBalanced(k, te);
        SetColor(tmp, Red, S, ks, w);
        k, te := k.up, Node(te, k.elm, k.color, Paint(w, Red));
        elm := parent;
        HoleFields(Cells(S), k, te);
        parent := elm.parent;
      } else {
        RepairLeft(parent, tmp, S, k, te);
        RepairedLeftBalanced(k, te);
        elm, done := root, true;
        k, te := Top, t;
      }
    }

    /** The first part of RB_REMOVE_COLOR's loop, hole on the right: the sibling `tmp` is black. */
    method BlackSiblingRight(parent: Entry, ghost S: set<Entry>, ghost k0: Ctx, ghost te: Tree)
      returns (tmp: Entry, ghost k: Ctx)
      requires BlackDue(Ptr(te), parent, S, k0, te) && k0.InRight?
      modifies this, S`left, S`right, S`parent, S`color
      ensures BlackDue(Ptr(te), parent, S, k, te) && Inorder(t) == old(Inorder(t))
      ensures k.InRight? && k.left.Node? && !IsRed(k.left) && k.left.elm == tmp && (k == k0 || CtxRed(k))
    {
      k := k0;
      SiblingFields(Cells(S), k, te);
      tmp := parent.left;
      if tmp.color == Red {
        RedSiblingRight(parent, tmp, S, k, te);
        LoweredRightBalanced(k, BlackHeight(te) + 1);
        k := LoweredRight(k);
        SiblingFields(Cells(S), k, te);
        tmp := parent.left;
      }
    }

    /** The body of RB_REMOVE_COLOR's loop, hole on the right. */
    method RemoveStepRight(elm0: Entry?, parent0: Entry, ghost S: set<Entry>, ghost k0: Ctx, ghost te0: Tree)
      returns (elm: Entry?, parent: Entry?, done: bool, ghost k: Ctx, ghost te: Tree)
      requires BlackDue(elm0, parent0, S, k0, te0) && !IsRed(te0) && k0.InRight?
      modifies this, S`left, S`right, S`parent, S`color
      ensures Spells(S) && Inorder(t) == old(Inorder(t))
      ensures done ==> elm == root && k == Top && te == t && RedBlack(t)
      ensures !done ==> BlackDue(elm, parent, S, k, te) && Due(k, te) < Due(k0, te0)
    {
      hide IsTree; hide IsCtx; hide Sorted; hide Inorder;
      var tmp;
      elm, parent, done, te := elm0, parent0, false, te0;
      tmp, k := BlackSiblingRight(parent, S, k0, te);
      ghost var w, ks := k.left, InLeft(k.up, k.elm, k.color, te);
      NodeFields(Cells(S), ks, w);
      if (tmp.left == null || tmp.left.color == Black) && (tmp.right == null || tmp.right.color == Black) {
        RecolouredBalanced(k, te);
        SetColor(tmp, Red, S, ks, w);
        k, te := k.up, Node(Paint(w, Red), k.elm, k.color, te);
        elm := parent;
        HoleFields(Cells(S), k, te);
        parent := elm.parent;
      } else {
        RepairRight(parent, tmp, S, k, te);
        RepairedRightBalanced(k, te);
        elm, done := root, true;
        k, te := Top, t;
      }
    }

    /** RB_REMOVE_COLOR: the tree lacks one black at `elm0` and gets it back. */
    method RemoveColor(parent0: Entry?, elm0: Entry?, ghost S: set<Entry>, ghost k0: Ctx, ghost te0: Tree)
      requires BlackDue(elm0, parent0, S, k0, te0)
      modifies this, S`left, S`right, S`parent, S`color
      ensures Spells(S) && RedBlack(t) && Inorder(t) == old(Inorder(t))
    {
      hide IsTree; hide IsCtx; hide Sorted; hide Inorder;
      var elm, parent, done := elm0, parent0, false;
      ghost var k, te := k0, te0;
      HoleFields(Cells(S), k, te);
      RootIs(k, te);
      while (elm == null || elm.color == Black) && elm != root
        invariant Spells(S) && Inorder(t) == old(Inorder(t)) && (elm != null ==> elm in S)
        invariant BlackDue(elm, parent, S, k, te)
        invariant (elm != null ==> elm.color == te.color) && (elm == root <==> k.Top?)
        decreases Due(k, te)
      {
        Focus(Cells(S), k, te);
        WhichHole(Cells(S), k, te);
        if parent.left == elm {
          elm, parent, done, k, te := RemoveStepLeft(elm, parent, S, k, te);
        } else {
          elm, parent, done, k, te := RemoveStepRight(elm, parent, S, k, te);
        }
        if done {
          break;
        }
        HoleFields(Cells(S), k, te);
        RootIs(k, te);
      }
      if elm != null {
        PaintBlackRedBlack(k, te, done);
        SetColor(elm, Black, S, k, te);
      }
    }

    /** The assignments by which RB_REMOVE takes out an entry that has at most one child. */
    method UnlinkLinks(elm: Entry, child: Entry?, parent: Entry?, ghost S: set<Entry>, ghost k: Ctx, ghost sub: Tree)
      requires Spells(S) && t == Plug(k, sub) && sub.Node? && sub.elm == elm
      requires (sub.left.Leaf? || sub.right.Leaf?) && child == Ptr(OnlyChild(sub)) && parent == Up(k)
      modifies this`root, S`left, S`right, S`parent
      ensures Unlinked(old(Cells(S)), Cells(S), k, child) && root == (if k.Top? then child else old(root))
      ensures unchanged(elm)
    {
      UnlinkAliases(Cells(S), k, sub);
      if child != null {
        child.parent := parent;
      }
      if parent != null {
        if parent.left == elm {
          parent.left := child;
        } else {
          parent.right := child;
        }
      } else {
        root := child;
      }
    }

    /** Taking out an entry that has at most one child: the tree loses just that entry. */
    method Unlink(elm: Entry, child: Entry?, parent: Entry?, ghost S: set<Entry>, ghost k: Ctx, ghost sub: Tree)
      requires Spells(S) && t == Plug(k, sub) && sub.Node? && sub.elm == elm
      requires (sub.left.Leaf? || sub.right.Leaf?) && child == Ptr(OnlyChild(sub)) && parent == Up(k)
      modifies this, S`left, S`right, S`parent
      ensures Spells(S) && t == Plug(k, OnlyChild(sub)) && Elems(t) == old(Elems(t)) - {elm}
      ensures unchanged(elm)
    {
      ghost var s := Cells(S);
      UnlinkLinks(elm, child, parent, S, k, sub);
      UnlinkTree(s, Cells(S), k, sub);
      UnlinkSpec(k, sub);
      t := Plug(k, OnlyChild(sub));
    }

    /** The assignments by which RB_REMOVE puts the successor `m`, already out of the tree,
        in the place of `gone`. */
    method TransplantLinks(gone: Entry, m: Entry, ghost S: set<Entry>, ghost k: Ctx, ghost sub: Tree)
      requires Spells(S) && t == Plug(k, sub) && sub.Node? && sub.elm == gone && sub.left.Node?
      requires m in S && m !in Elems(t)
      modifies this`root, S`left, S`right, S`parent, S`color
      ensures Replaced(old(Cells(S)), Cells(S), k, gone, m) && root == (if k.Top? then m else old(root))
    {
      TransplantAliases(Cells(S), k, sub);
      m.left, m.right, m.parent, m.color := gone.left, gone.right, gone.parent, gone.color;
      if gone.parent != null {
        if gone.parent.left == gone {
          gone.parent.left := m;
        } else {
          gone.parent.right := m;
        }
      } else {
        root := m;
      }
      gone.left.parent := m;
      if gone.right != null {
        gone.right.parent := m;
      }
    }

    /** Putting `m` in the place of `gone`: the node stays, its entry is another. */
    method TransplantAt(gone: Entry, m: Entry, ghost S: set<Entry>, ghost k: Ctx, ghost sub: Tree)
      requires Spells(S) && t == Plug(k, sub) && sub.Node? && sub.elm == gone && sub.left.Node?
      requires m in S && m !in Elems(t) && Sorted(Inorder(Plug(k, sub.(elm := m))))
      modifies this, S`left, S`right, S`parent, S`color
      ensures Spells(S) && t == Plug(k, sub.(elm := m))
    {
      ghost var s := Cells(S);
      TransplantLinks(gone, m, S, k, sub);
      TransplantTree(s, Cells(S), k, sub, m);
      t := Plug(k, sub.(elm := m));
    }

    /** The walk of RB_REMOVE to the successor: down the left links. */
    method LeastBelow(elm0: Entry, ghost S: set<Entry>, ghost k: Ctx, ghost te0: Tree)
      returns (elm: Entry, ghost inner: Ctx, ghost te: Tree)
      requires Spells(S) && t == Plug(k, te0) && te0.Node? && te0.elm == elm0
      ensures Leftmost(inner) && te0 == Plug(inner, te) && te.Node? && te.elm == elm && te.left.Leaf?
      ensures elm in S && elm.right == Ptr(te.right) && elm.parent == Up(Graft(inner, k)) && elm.color == te.color
    {
      elm, inner, te := elm0, Top, te0;
      NodeFields(Cells(S), k, te);
      var left := elm.left;
      while left != null
        invariant te0 == Plug(inner, te) && Leftmost(inner) && te.Node? && te.elm == elm && left == Ptr(te.left)
        decreases te
      {
        elm := left;
        inner, te := InLeft(inner, te.elm, te.color, te.right), te.left;
        GraftPlug(inner, k, te);
        NodeFields(Cells(S), Graft(inner, k), te);
        left := elm.left;
      }
      GraftPlug(inner, k, te);
      NodeFields(Cells(S), Graft(inner, k), te);
    }

    /** RB_REMOVE of an entry with two children: its successor is unlinked and takes its
        place. What remains is to look at the colour that went with the successor's node. */
    method RemoveInner(gone: Entry, ghost S: set<Entry>, ghost k: Ctx, ghost sub: Tree)
      returns (parent: Entry?, child: Entry?, color: Color, ghost k': Ctx, ghost te': Tree)
      requires Spells(S) && RedBlack(t) && t == Plug(k, sub) && sub.Node? && sub.elm == gone
      requires sub.left.Node? && sub.right.Node?
      modifies this, S`left, S`right, S`parent, S`color
      ensures Spells(S) && Elems(t) == old(Elems(t)) - {gone}
      ensures color == Red ==> RedBlack(t)
      ensures color == Black ==> BlackDue(child, parent, S, k', te')
    {
      hide IsTree; hide IsCtx; hide Sorted; hide Inorder;
      hide Elems; hide Balanced; hide Nearly; hide CtxBalanced; hide RedBlack;
      ghost var base := InRight(k, sub.left, gone, sub.color);
      NodeFields(Cells(S), k, sub);
      var elm, inner, te := LeastBelow(gone.right, S, base, sub.right);
      child, parent, color := elm.right, elm.parent, elm.color;
      ghost var sub1 := sub.(right := Plug(inner, te.right));
      GraftPlug(inner, base, te);
      GraftPlug(inner, base, te.right);
      Unlink(elm, child, parent, S, Graft(inner, base), te);
      if elm.parent == gone {
        parent := elm;
      }
      SuccessorSpec(k, sub, inner, te);
      TransplantAt(gone, elm, S, k, sub1);
      SuccessorParent(k, sub, inner, te);
      SuccessorBalanced(k, sub, inner, te);
      k', te' := Graft(inner, InRight(k, sub.left, elm, sub.color)), te.right;
      GraftPlug(inner, InRight(k, sub.left, elm, sub.color), te');
    }

    /** RB_REMOVE: the member leaves the tree, every other member stays, and the entry is
        handed back. */
    method Remove(elm: Entry) returns (r: Entry)
      requires Valid() && elm in Elems(t)
      modifies this, Elems(t)`left, Elems(t)`right, Elems(t)`parent, Elems(t)`color
      ensures Valid() && Elems(t) == old(Elems(t)) - {elm} && r == elm
    {
      hide IsTree; hide IsCtx; hide Sorted; hide Inorder;
      hide Elems; hide Balanced; hide Nearly; hide CtxBalanced; hide RedBlack;
      ghost var S := Elems(t);
      ElemsInorder(t);
      ghost var i :| 0 <= i < |Inorder(t)| && Inorder(t)[i] == elm;
      ghost var k, te := PlaceOf(t, i);
      NodeFields(Cells(S), k, te);
      var parent, child, color;
      if elm.left != null && elm.right != null {
        parent, child, color, k, te := RemoveInner(elm, S, k, te);
      } else {
        child := if elm.left == null then elm.right else elm.left;
        parent, color := elm.parent, elm.color;
        UnlinkBalanced(k, te);
        Unlink(elm, child, parent, S, k, te);
        te := OnlyChild(te);
      }
      if color == Black {
        ElemsInorder(t);
        RemoveColor(parent, child, S, k, te);
        ElemsInorder(t);
      }
      Narrow(S);
      r := elm;
    }

    /** RB_FIND: the member with the key, if there is one, by as many turns of the
        loop as entries lie on the way to it, a logarithmic number. */
    method Find(key: int) returns (r: Entry?, ghost steps: nat)
      requires Valid()
      ensures r != null ==> r in Elems(t) && r.key == key
      ensures r == null ==> forall e :: e in Elems(t) ==> e.key != key
      ensures steps == OnPath(t, key) && Logarithmic(steps, |Inorder(t)|)
    {
      hide IsTree; hide IsCtx; hide Sorted; hide Inorder;
      ghost var S := Elems(t);
      assert Spells(S);
      var tmp := root;
      ghost var k, te := Top, t;
      steps := 0;
      while tmp != null
        invariant t == Plug(k, te) && tmp == Ptr(te) && Splits(k, key)
        invariant steps + OnPath(te, key) == OnPath(t, key)
        decreases te
      {
        assert Spells(S);
        Focus(Cells(S), k, te);
        MemberAt(k, te);
        steps := steps + 1;
        if key < tmp.key {
          GoLeft(k, te, key);
          tmp := tmp.left;
          k, te := InLeft(k, te.elm, te.color, te.right), te.left;
        } else if key > tmp.key {
          GoRight(k, te, key);
          tmp := tmp.right;
          k, te := InRight(k, te.left, te.elm, te.color), te.right;
        } else {
          PathBound(t, key);
          return tmp, steps;
        }
      }
      MissedKey(k, key);
      PathBound(t, key);
      r := null;
    }

    /** RB_NFIND: the least member at or above the key, in as many turns. */
    method NFind(key: int) returns (res: Entry?, ghost steps: nat)
      requires Valid()
      ensures LeastFrom(t, key, res)
      ensures steps == OnPath(t, key) && Logarithmic(steps, |Inorder(t)|)
    {
      hide IsTree; hide IsCtx; hide Sorted; hide Inorder;
      ghost var S := Elems(t);
      assert Spells(S);
      var tmp := root;
      res := null;
      ghost var k, te := Top, t;
      steps := 0;
      while tmp != null
        invariant t == Plug(k, te) && tmp == Ptr(te) && Splits(k, key) && res == First(After(k))
        invariant steps + OnPath(te, key) == OnPath(t, key)
        decreases te
      {
        assert Spells(S);
        Focus(Cells(S), k, te);
        MemberAt(k, te);
        steps := steps + 1;
        if key < tmp.key {
          GoLeft(k, te, key);
          res := tmp;
          tmp := tmp.left;
          k, te := InLeft(k, te.elm, te.color, te.right), te.left;
        } else if key > tmp.key {
          GoRight(k, te, key);
          tmp := tmp.right;
          k, te := InRight(k, te.left, te.elm, te.color), te.right;
        } else {
          HitIsLeast(t, tmp, key);
          PathBound(t, key);
          return tmp, steps;
        }
      }
      FirstAfterIsLeast(k, key);
      PathBound(t, key);
    }

    /** RB_NEXT from the `i`-th member: the next one in key order, or null after the last. */
    method Next(elm0: Entry, ghost i: nat) returns (elm: Entry?)
      requires Valid() && i < |Inorder(t)| && Inorder(t)[i] == elm0
      ensures elm == Successor(t, i)
    {
      hide IsTree; hide IsCtx; hide Sorted;
      ghost var S := Elems(t);
      assert Spells(S);
      ghost var k, te := PlaceOf(t, i);
      NodeFields(Cells(S), k, te);
      elm := elm0;
      if elm.right != null {
        k, te := InRight(k, te.left, te.elm, te.color), te.right;
        NodeFields(Cells(S), k, te);
        elm := elm.right;
        while elm.left != null
          invariant te.Node? && te.elm == elm && elm.left == Ptr(te.left) && t == Plug(k, te)
          invariant |Before(k)| == i + 1
          decreases te
        {
          assert Spells(S);
          elm := elm.left;
          k, te := InLeft(k, te.elm, te.color, te.right), te.left;
          NodeFields(Cells(S), k, te);
        }
        SuccessorBelow(k, te, i);
      } else {
        SuccessorAbove(k, te, i);
        UpFields(Cells(S), k, te);
        if elm.parent != null && elm == elm.parent.left {
          elm := elm.parent;
        } else {
          while elm.parent != null && elm == elm.parent.right
            invariant te.Node? && te.elm == elm && elm in S && t == Plug(k, te) && elm.parent == Up(k)
            invariant Up(k) != null ==> Up(k) in S && (k.InRight? <==> elm == Up(k).right)
            invariant |Before(k)| + |Inorder(te)| == i + 1
            decreases Depth(k)
          {
            assert Spells(S);
            SuccessorAbove(k, te, i);
            elm := elm.parent;
            k, te := k.up, Fill(k, te);
            UpFields(Cells(S), k, te);
          }
          SuccessorAbove(k, te, i);
          elm := elm.parent;
        }
      }
    }

    /** RB_PREV from the `i`-th member: the one before it in key order, or null. */
    method Prev(elm0: Entry, ghost i: nat) returns (elm: Entry?)
      requires Valid() && i < |Inorder(t)| && Inorder(t)[i] == elm0
      ensures elm == Predecessor(t, i)
    {
      hide IsTree; hide IsCtx; hide Sorted;
      ghost var S := Elems(t);
      assert Spells(S);
      ghost var k, te := PlaceOf(t, i);
      NodeFields(Cells(S), k, te);
      elm := elm0;
      if elm.left != null {
        k, te := InLeft(k, te.elm, te.color, te.right), te.left;
        NodeFields(Cells(S), k, te);
        elm := elm.left;
        while elm.right != null
          invariant te.Node? && te.elm == elm && elm.right == Ptr(te.right) && t == Plug(k, te)
          invariant |Before(k)| + |Inorder(te)| == i
          decreases te
        {
          assert Spells(S);
          elm := elm.right;
          k, te := InRight(k, te.left, te.elm, te.color), te.right;
          NodeFields(Cells(S), k, te);
        }
        PredecessorBelow(k, te, i);
      } else {
        PredecessorAbove(k, te, i);
        UpFields(Cells(S), k, te);
        if elm.parent != null && elm == elm.parent.right {
          elm := elm.parent;
        } else {
          while elm.parent != null && elm == elm.parent.left
            invariant te.Node? && te.elm == elm && elm in S && t == Plug(k, te) && elm.parent == Up(k)
            invariant Up(k) != null ==> Up(k) in S && (k.InLeft? <==> elm == Up(k).left)
            invariant |Before(k)| == i
            decreases Depth(k)
          {
            assert Spells(S);
            PredecessorAbove(k, te, i);
            elm := elm.parent;
            k, te := k.up, Fill(k, te);
            UpFields(Cells(S), k, te);
          }
          PredecessorAbove(k, te, i);
          elm := elm.parent;
        }
      }
    }

    /** RB_MINMAX: the first member for a negative `val`, the last one otherwise. */
    method MinMax(val: int) returns (parent: Entry?)
      requires Valid()
      ensures parent == (if t.Leaf? then null else if val < 0 then Inorder(t)[0] else Inorder(t)[|Inorder(t)| - 1])
    {
      hide IsTree; hide IsCtx; hide Sorted;
      ghost var S := Elems(t);
      assert Spells(S);
      var tmp := root;
      parent := null;
      ghost var k, te := Top, t;
      while tmp != null
        invariant t == Plug(k, te) && tmp == Ptr(te) && parent == Up(k)
        invariant val < 0 ==> Before(k) == [] && parent == First(After(k))
        invariant val >= 0 ==> After(k) == [] && parent == Last(Before(k))
        decreases te
      {
        assert Spells(S);
        Focus(Cells(S), k, te);
        parent := tmp;
        if val < 0 {
          tmp := tmp.left;
          k, te := InLeft(k, te.elm, te.color, te.right), te.left;
        } else {
          tmp := tmp.right;
          k, te := InRight(k, te.left, te.elm, te.color), te.right;
        }
      }
      PlugInorder(k, te);
    }

    /** From RB_NFIND(0) by RB_NEXT: every member once, in increasing key order. */
    method Walk() returns (visited: seq<Entry>)
      requires Valid()
      ensures visited == Inorder(t)
    {
      ghost var S := Elems(t);
      assert Spells(S);
      visited := [];
      ghost var q := Inorder(t);
      var e, steps := NFind(0);
      LeastOfAll(t, e);
      while e != null
        invariant |visited| <= |q| && visited == q[..|visited|]
        invariant e == if |visited| < |q| then q[|visited|] else null
        decreases |q| - |visited|
      {
        assert Spells(S);
        visited := visited + [e];
        e := Next(e, |visited| - 1);
      }
    }
  }

  /** RB_PREV undoes RB_NEXT. */
  method NextThenPrev(tree: RbTree, elm: Entry, ghost i: nat) returns (back: Entry?)
    requires tree.Valid() && i < |Inorder(tree.t)| && Inorder(tree.t)[i] == elm
    ensures i + 1 < |Inorder(tree.t)| ==> back == elm
  {
    ghost var S := Elems(tree.t);
    assert tree.Spells(S);
    var next := tree.Next(elm, i);
    assert tree.Spells(S);
    back := null;
    if next != null {
      back := tree.Prev(next, i + 1);
    }
  }

  /** In a valid tree parent and child fields agree everywhere, the root has no parent, and
      the height is logarithmic. */
  lemma ValidMeans(tree: RbTree)
    requires tree.Valid()
    ensures Mutual(Cells(Elems(tree.t)), null, tree.t) && tree.root == Ptr(tree.t)
    ensures Logarithmic(Height(tree.t), |Inorder(tree.t)|)
  {
    SortedDistinct(tree.t);
    MutualLinks(Cells(Elems(tree.t)), null, tree.t);
    HeightBound(tree.t);
  }
}
