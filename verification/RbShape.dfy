/** The mathematics of the red-black tree: trees as values, one-hole contexts,
    and what it means for the pointer fields of a set of entries to spell a tree. */
module RbShape {
  import opened Entries

  /** The four tree fields of one entry, read at one moment. */
  datatype Cell = Cell(left: Entry?, right: Entry?, parent: Entry?, color: Color)

  type Store = map<Entry, Cell>

  datatype Tree = Leaf | Node(left: Tree, elm: Entry, color: Color, right: Tree)

  /** A tree with one subtree missing, told from the hole upwards. */
  datatype Ctx =
    | Top
    | InLeft(up: Ctx, elm: Entry, color: Color, right: Tree)
    | InRight(up: Ctx, left: Tree, elm: Entry, color: Color)

  function Plug(k: Ctx, t: Tree): Tree {
    match k
    case Top => t
    case InLeft(up, e, c, r) => Plug(up, Node(t, e, c, r))
    case InRight(up, l, e, c) => Plug(up, Node(l, e, c, t))
  }

  /** The subtree with its root painted `c`. */
  function Paint(t: Tree, c: Color): Tree {
    if t.Leaf? then t else t.(color := c)
  }

  /** The pointer by which a tree is reached. */
  function Ptr(t: Tree): Entry? {
    if t.Leaf? then null else t.elm
  }

  /** The entry whose child the hole is. */
  function Up(k: Ctx): Entry? {
    if k.Top? then null else k.elm
  }

  function Inorder(t: Tree): seq<Entry> {
    match t
    case Leaf => []
    case Node(l, e, _, r) => Inorder(l) + [e] + Inorder(r)
  }

  function Before(k: Ctx): seq<Entry> {
    match k
    case Top => []
    case InLeft(up, _, _, _) => Before(up)
    case InRight(up, l, e, _) => Before(up) + Inorder(l) + [e]
  }

  function After(k: Ctx): seq<Entry> {
    match k
    case Top => []
    case InLeft(up, e, _, r) => [e] + Inorder(r) + After(up)
    case InRight(up, _, _, _) => After(up)
  }

  function Elems(t: Tree): set<Entry> {
    match t
    case Leaf => {}
    case Node(l, e, _, r) => Elems(l) + {e} + Elems(r)
  }

  function CtxElems(k: Ctx): set<Entry> {
    match k
    case Top => {}
    case InLeft(up, e, _, r) => CtxElems(up) + {e} + Elems(r)
    case InRight(up, l, e, _) => CtxElems(up) + {e} + Elems(l)
  }

  /** No entry occurs twice. */
  ghost predicate Distinct(t: Tree) {
    match t
    case Leaf => true
    case Node(l, e, _, r) =>
      Distinct(l) && Distinct(r) && e !in Elems(l) && e !in Elems(r) && Elems(l) !! Elems(r)
  }

  /** No entry occurs twice in the context, nor in `below`, what fills its hole. */
  ghost predicate CtxDistinct(k: Ctx, below: set<Entry>) {
    match k
    case Top => true
    case InLeft(up, e, _, r) =>
      Distinct(r) && e !in Elems(r) && e !in below && Elems(r) !! below
      && CtxDistinct(up, below + {e} + Elems(r))
    case InRight(up, l, e, _) =>
      Distinct(l) && e !in Elems(l) && e !in below && Elems(l) !! below
      && CtxDistinct(up, below + {e} + Elems(l))
  }

  /** The fields recorded in `s` spell the tree `t` hanging below `parent`. */
  ghost predicate IsTree(s: Store, parent: Entry?, t: Tree)
    decreases t
  {
    match t
    case Leaf => true
    case Node(l, e, c, r) =>
      e in s && s[e] == Cell(Ptr(l), Ptr(r), parent, c) && IsTree(s, e, l) && IsTree(s, e, r)
  }

  /** The fields recorded in `s` spell the context `k` whose hole is reached by `p`. */
  ghost predicate IsCtx(s: Store, k: Ctx, p: Entry?)
    decreases k
  {
    match k
    case Top => true
    case InLeft(up, e, c, r) =>
      e in s && s[e] == Cell(p, Ptr(r), Up(up), c) && IsTree(s, e, r) && IsCtx(s, up, e)
    case InRight(up, l, e, c) =>
      e in s && s[e] == Cell(Ptr(l), p, Up(up), c) && IsTree(s, e, l) && IsCtx(s, up, e)
  }

  ghost predicate Sorted(q: seq<Entry>) {
    forall i, j :: 0 <= i < j < |q| ==> q[i].key < q[j].key
  }

  // ---- contexts and trees -------------------------------------------------

  lemma {:induction false} PlugIsTree(s: Store, k: Ctx, t: Tree)
    ensures IsTree(s, null, Plug(k, t)) <==> IsCtx(s, k, Ptr(t)) && IsTree(s, Up(k), t)
    decreases k
  {
    match k
    case Top =>
    case InLeft(up, e, c, r) => PlugIsTree(s, up, Node(t, e, c, r));
    case InRight(up, l, e, c) => PlugIsTree(s, up, Node(l, e, c, t));
  }

  lemma {:induction false} PlugInorder(k: Ctx, t: Tree)
    ensures Inorder(Plug(k, t)) == Before(k) + Inorder(t) + After(k)
    decreases k
  {
    match k
    case Top =>
    case InLeft(up, e, c, r) => PlugInorder(up, Node(t, e, c, r));
    case InRight(up, l, e, c) => PlugInorder(up, Node(l, e, c, t));
  }

  lemma {:induction false} PlugElems(k: Ctx, t: Tree)
    ensures Elems(Plug(k, t)) == CtxElems(k) + Elems(t)
    decreases k
  {
    match k
    case Top =>
    case InLeft(up, e, c, r) => PlugElems(up, Node(t, e, c, r));
    case InRight(up, l, e, c) => PlugElems(up, Node(l, e, c, t));
  }

  lemma {:induction false} PlugDistinct(k: Ctx, t: Tree)
    ensures Distinct(Plug(k, t)) <==> Distinct(t) && CtxDistinct(k, Elems(t))
    decreases k
  {
    match k
    case Top =>
    case InLeft(up, e, c, r) =>
      PlugDistinct(up, Node(t, e, c, r));
      assert Elems(Node(t, e, c, r)) == Elems(t) + {e} + Elems(r);
    case InRight(up, l, e, c) =>
      PlugDistinct(up, Node(l, e, c, t));
      assert Elems(Node(l, e, c, t)) == Elems(t) + {e} + Elems(l);
  }

  lemma {:induction false} CtxDisjoint(k: Ctx, below: set<Entry>)
    requires CtxDistinct(k, below)
    ensures CtxElems(k) !! below
    decreases k
  {
    match k
    case Top =>
    case InLeft(up, e, c, r) => CtxDisjoint(up, below + {e} + Elems(r));
    case InRight(up, l, e, c) => CtxDisjoint(up, below + {e} + Elems(l));
  }

  lemma {:induction false} ElemsInorder(t: Tree)
    ensures Elems(t) == set e | e in Inorder(t)
  {
    match t
    case Leaf =>
    case Node(l, e, c, r) =>
      ElemsInorder(l);
      ElemsInorder(r);
  }

  lemma SortedSplit(a: seq<Entry>, e: Entry, b: seq<Entry>)
    requires Sorted(a + [e] + b)
    ensures Sorted(a) && Sorted(b)
    ensures forall x :: x in a ==> x.key < e.key
    ensures forall x :: x in b ==> e.key < x.key
  {
    var q := a + [e] + b;
    assert forall i :: 0 <= i < |a| ==> a[i] == q[i];
    assert q[|a|] == e;
    assert forall i :: 0 <= i < |b| ==> b[i] == q[|a| + 1 + i];
  }

  /** In a sorted tree the left keys lie below the root's and the right keys above. */
  lemma SortedNode(l: Tree, e: Entry, c: Color, r: Tree)
    requires Sorted(Inorder(Node(l, e, c, r)))
    ensures Sorted(Inorder(l)) && Sorted(Inorder(r))
    ensures forall x :: x in Elems(l) ==> x.key < e.key
    ensures forall x :: x in Elems(r) ==> e.key < x.key
  {
    SortedSplit(Inorder(l), e, Inorder(r));
    ElemsInorder(l);
    ElemsInorder(r);
    forall x | x in Elems(l) ensures x.key < e.key { assert x in Inorder(l); }
    forall x | x in Elems(r) ensures e.key < x.key { assert x in Inorder(r); }
  }

  lemma {:induction false} SortedDistinct(t: Tree)
    requires Sorted(Inorder(t))
    ensures Distinct(t)
  {
    match t
    case Leaf =>
    case Node(l, e, c, r) =>
      SortedNode(l, e, c, r);
      SortedDistinct(l);
      SortedDistinct(r);
      assert Elems(l) !! Elems(r);
  }

  // ---- frames -------------------------------------------------------------

  ghost predicate Agree(s: Store, s': Store, es: set<Entry>) {
    forall e :: e in es && e in s ==> e in s' && s'[e] == s[e]
  }

  lemma {:induction false} FrameTree(s: Store, s': Store, parent: Entry?, t: Tree)
    requires IsTree(s, parent, t) && Agree(s, s', Elems(t))
    ensures IsTree(s', parent, t)
    decreases t
  {
    match t
    case Leaf =>
    case Node(l, e, c, r) =>
      FrameTree(s, s', e, l);
      FrameTree(s, s', e, r);
  }

  lemma {:induction false} FrameCtx(s: Store, s': Store, k: Ctx, p: Entry?)
    requires IsCtx(s, k, p) && Agree(s, s', CtxElems(k))
    ensures IsCtx(s', k, p)
    decreases k
  {
    match k
    case Top =>
    case InLeft(up, e, c, r) =>
      FrameTree(s, s', e, r);
      FrameCtx(s, s', up, e);
    case InRight(up, l, e, c) =>
      FrameTree(s, s', e, l);
      FrameCtx(s, s', up, e);
  }

  /** A different root pointer is hung in the hole: only the entry above it changes. */
  ghost predicate ChildReplaced(s: Store, s': Store, k: Ctx, p': Entry?) {
    k.Top? ||
    (k.elm in s && k.elm in s'
     && s'[k.elm] == if k.InLeft? then s[k.elm].(left := p') else s[k.elm].(right := p'))
  }

  lemma ReplaceChild(s: Store, s': Store, k: Ctx, p: Entry?, p': Entry?, below: set<Entry>)
    requires IsCtx(s, k, p) && CtxDistinct(k, below)
    requires Agree(s, s', CtxElems(k) - {Up(k)})
    requires ChildReplaced(s, s', k, p')
    ensures IsCtx(s', k, p')
  {
    match k
    case Top =>
    case InLeft(up, e, c, r) =>
      CtxDisjoint(up, below + {e} + Elems(r));
      FrameTree(s, s', e, r);
      FrameCtx(s, s', up, e);
    case InRight(up, l, e, c) =>
      CtxDisjoint(up, below + {e} + Elems(l));
      FrameTree(s, s', e, l);
      FrameCtx(s, s', up, e);
  }

  /** Only the parent pointer of a subtree's root changes. */
  lemma Reparent(s: Store, s': Store, q: Entry?, q': Entry?, t: Tree)
    requires IsTree(s, q, t) && Distinct(t)
    requires t.Node? ==> t.elm in s' && s'[t.elm] == s[t.elm].(parent := q')
    requires t.Node? ==> Agree(s, s', Elems(t) - {t.elm})
    ensures IsTree(s', q', t)
  {
    if t.Node? {
      FrameTree(s, s', t.elm, t.left);
      FrameTree(s, s', t.elm, t.right);
    }
  }
}
