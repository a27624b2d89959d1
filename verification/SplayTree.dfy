/** The top-down splay tree of src/tree.h. */
module SplayTree {

  class Node {
    const key: int
    var left: Node?
    var right: Node?

    constructor (key: int)
      ensures this.key == key && left == null && right == null
    {
      this.key := key;
      left, right := null, null;
    }
  }

  datatype Cell = Cell(left: Node?, right: Node?)

  type Store = map<Node, Cell>

  datatype Tree = Leaf | Bin(left: Tree, elm: Node, right: Tree)

  /** The tree of the lesser nodes that a splay has set aside, whose right spine still grows:
      the subtrees and nodes of that spine, from its end upwards. */
  datatype Lesser = LNil | LCons(up: Lesser, left: Tree, elm: Node)

  /** The tree of the greater nodes, whose left spine still grows. */
  datatype Greater = GNil | GCons(up: Greater, elm: Node, right: Tree)

  function Ptr(t: Tree): Node? {
    if t.Leaf? then null else t.elm
  }

  function Inorder(t: Tree): seq<Node> {
    match t
    case Leaf => []
    case Bin(l, e, r) => Inorder(l) + [e] + Inorder(r)
  }

  function InLesser(l: Lesser): seq<Node> {
    match l
    case LNil => []
    case LCons(up, t, e) => InLesser(up) + Inorder(t) + [e]
  }

  function InGreater(g: Greater): seq<Node> {
    match g
    case GNil => []
    case GCons(up, e, t) => [e] + Inorder(t) + InGreater(up)
  }

  function Elems(t: Tree): set<Node> {
    match t
    case Leaf => {}
    case Bin(l, e, r) => Elems(l) + {e} + Elems(r)
  }

  function LesserElems(l: Lesser): set<Node> {
    match l
    case LNil => {}
    case LCons(up, t, e) => LesserElems(up) + Elems(t) + {e}
  }

  function GreaterElems(g: Greater): set<Node> {
    match g
    case GNil => {}
    case GCons(up, e, t) => GreaterElems(up) + {e} + Elems(t)
  }

  ghost predicate Distinct(t: Tree) {
    match t
    case Leaf => true
    case Bin(l, e, r) =>
      Distinct(l) && Distinct(r) && e !in Elems(l) && e !in Elems(r) && Elems(l) !! Elems(r)
  }

  ghost predicate IsTree(s: Store, t: Tree)
    decreases t
  {
    match t
    case Leaf => true
    case Bin(l, e, r) => e in s && s[e] == Cell(Ptr(l), Ptr(r)) && IsTree(s, l) && IsTree(s, r)
  }

  /** The node at the end of the lesser tree's right spine; the dummy when there is none. */
  function LEnd(l: Lesser, dummy: Node): Node {
    if l.LNil? then dummy else l.elm
  }

  function GEnd(g: Greater, dummy: Node): Node {
    if g.GNil? then dummy else g.elm
  }

  /** The lesser tree hangs from the dummy's right link; the link at the end of its spine is
      not constrained yet. */
  ghost predicate IsLesser(s: Store, l: Lesser, dummy: Node)
    decreases l
  {
    match l
    case LNil => true
    case LCons(up, t, e) =>
      e in s && s[e].left == Ptr(t) && IsTree(s, t) && LEnd(up, dummy) in s && s[LEnd(up, dummy)].right == e
      && IsLesser(s, up, dummy)
  }

  ghost predicate IsGreater(s: Store, g: Greater, dummy: Node)
    decreases g
  {
    match g
    case GNil => true
    case GCons(up, e, t) =>
      e in s && s[e].right == Ptr(t) && IsTree(s, t) && GEnd(up, dummy) in s && s[GEnd(up, dummy)].left == e
      && IsGreater(s, up, dummy)
  }

  /** The lesser tree with `t` at the end of its spine. */
  function CloseLesser(l: Lesser, t: Tree): Tree {
    match l
    case LNil => t
    case LCons(up, a, e) => CloseLesser(up, Bin(a, e, t))
  }

  function CloseGreater(g: Greater, t: Tree): Tree {
    match g
    case GNil => t
    case GCons(up, e, a) => CloseGreater(up, Bin(t, e, a))
  }

  ghost predicate LDistinct(l: Lesser) {
    match l
    case LNil => true
    case LCons(up, t, e) =>
      LDistinct(up) && Distinct(t) && e !in Elems(t) && e !in LesserElems(up) && Elems(t) !! LesserElems(up)
  }

  ghost predicate GDistinct(g: Greater) {
    match g
    case GNil => true
    case GCons(up, e, t) =>
      GDistinct(up) && Distinct(t) && e !in Elems(t) && e !in GreaterElems(up) && Elems(t) !! GreaterElems(up)
  }

  /** The three parts of a splay in progress and the dummy share nothing. */
  ghost predicate Apart(l: Lesser, t: Tree, g: Greater, dummy: Node) {
    && LDistinct(l) && Distinct(t) && GDistinct(g)
    && LesserElems(l) !! Elems(t) !! GreaterElems(g) !! {dummy}
  }

  // ---- order --------------------------------------------------------------------

  ghost predicate Sorted(q: seq<Node>) {
    forall i, j :: 0 <= i < j < |q| ==> q[i].key < q[j].key
  }

  lemma {:induction false} CloseLesserInorder(l: Lesser, t: Tree)
    ensures Inorder(CloseLesser(l, t)) == InLesser(l) + Inorder(t)
    decreases l
  {
    match l
    case LNil =>
    case LCons(up, a, e) => CloseLesserInorder(up, Bin(a, e, t));
  }

  lemma {:induction false} CloseGreaterInorder(g: Greater, t: Tree)
    ensures Inorder(CloseGreater(g, t)) == Inorder(t) + InGreater(g)
    decreases g
  {
    match g
    case GNil =>
    case GCons(up, e, a) => CloseGreaterInorder(up, Bin(t, e, a));
  }

  lemma {:induction false} CloseLesserElems(l: Lesser, t: Tree)
    ensures Elems(CloseLesser(l, t)) == LesserElems(l) + Elems(t)
    decreases l
  {
    match l
    case LNil =>
    case LCons(up, a, e) => CloseLesserElems(up, Bin(a, e, t));
  }

  lemma {:induction false} CloseGreaterElems(g: Greater, t: Tree)
    ensures Elems(CloseGreater(g, t)) == Elems(t) + GreaterElems(g)
    decreases g
  {
    match g
    case GNil =>
    case GCons(up, e, a) => CloseGreaterElems(up, Bin(t, e, a));
  }

  lemma {:induction false} ElemsInorder(t: Tree)
    ensures Elems(t) == set e | e in Inorder(t)
  {
    match t
    case Leaf =>
    case Bin(l, e, r) =>
      ElemsInorder(l);
      ElemsInorder(r);
  }

  // ---- frames ---------------------------------------------------------------------

  lemma {:induction false} FrameTree(s: Store, s': Store, t: Tree)
    requires IsTree(s, t) && forall e :: e in Elems(t) && e in s ==> e in s' && s'[e] == s[e]
    ensures IsTree(s', t)
    decreases t
  {
    match t
    case Leaf =>
    case Bin(l, e, r) =>
      FrameTree(s, s', l);
      FrameTree(s, s', r);
  }

  /** Nothing but the open link at the end of the spine, and links of the dummy that the
      spine does not use, may change. */
  lemma {:induction false} FrameLesser(s: Store, s': Store, l: Lesser, dummy: Node)
    requires IsLesser(s, l, dummy) && LDistinct(l) && dummy !in LesserElems(l)
    requires forall e :: e in LesserElems(l) && e in s ==> e in s' && s'[e].left == s[e].left
    requires forall e :: e in LesserElems(l) + {dummy} && e in s && e != LEnd(l, dummy) ==> e in s' && s'[e].right == s[e].right
    ensures IsLesser(s', l, dummy)
    decreases l
  {
    match l
    case LNil =>
    case LCons(up, t, e) =>
      assert LEnd(up, dummy) in LesserElems(l) + {dummy};
      FrameTree(s, s', t);
      FrameLesser(s, s', up, dummy);
  }

  lemma {:induction false} FrameGreater(s: Store, s': Store, g: Greater, dummy: Node)
    requires IsGreater(s, g, dummy) && GDistinct(g) && dummy !in GreaterElems(g)
    requires forall e :: e in GreaterElems(g) && e in s ==> e in s' && s'[e].right == s[e].right
    requires forall e :: e in GreaterElems(g) + {dummy} && e in s && e != GEnd(g, dummy) ==> e in s' && s'[e].left == s[e].left
    ensures IsGreater(s', g, dummy)
    decreases g
  {
    match g
    case GNil =>
    case GCons(up, e, t) =>
      assert GEnd(up, dummy) in GreaterElems(g) + {dummy};
      FrameTree(s, s', t);
      FrameGreater(s, s', up, dummy);
  }

  /** Once its open link is set, the lesser tree is a tree, hung from the dummy's right link. */
  lemma {:induction false} CloseLesserTree(s: Store, l: Lesser, t: Tree, dummy: Node)
    requires IsLesser(s, l, dummy) && IsTree(s, t) && LEnd(l, dummy) in s && s[LEnd(l, dummy)].right == Ptr(t)
    ensures IsTree(s, CloseLesser(l, t)) && dummy in s && s[dummy].right == Ptr(CloseLesser(l, t))
    decreases l
  {
    match l
    case LNil =>
    case LCons(up, a, e) => CloseLesserTree(s, up, Bin(a, e, t), dummy);
  }

  lemma {:induction false} CloseGreaterTree(s: Store, g: Greater, t: Tree, dummy: Node)
    requires IsGreater(s, g, dummy) && IsTree(s, t) && GEnd(g, dummy) in s && s[GEnd(g, dummy)].left == Ptr(t)
    ensures IsTree(s, CloseGreater(g, t)) && dummy in s && s[dummy].left == Ptr(CloseGreater(g, t))
    decreases g
  {
    match g
    case GNil =>
    case GCons(up, e, a) => CloseGreaterTree(s, up, Bin(t, e, a), dummy);
  }

  /** Both spines are as they were when only nodes of the middle tree have changed. */
  lemma SpinesKept(s: Store, s': Store, l: Lesser, g: Greater, dummy: Node, mid: set<Node>)
    requires IsLesser(s, l, dummy) && LDistinct(l) && IsGreater(s, g, dummy) && GDistinct(g)
    requires LesserElems(l) !! mid !! GreaterElems(g) !! {dummy}
    requires forall e :: e in s && e !in mid ==> e in s' && s'[e] == s[e]
    ensures IsLesser(s', l, dummy) && IsGreater(s', g, dummy)
  {
    FrameLesser(s, s', l, dummy);
    FrameGreater(s, s', g, dummy);
  }

  /** Moving the root with its right subtree to the greater tree (SPLAY_LINKLEFT). */
  lemma LinkLeftStore(s: Store, s': Store, l: Lesser, t: Tree, g: Greater, dummy: Node)
    requires t.Bin? && IsLesser(s, l, dummy) && IsTree(s, t) && IsGreater(s, g, dummy) && Apart(l, t, g, dummy)
    requires var e := GEnd(g, dummy); e in s && s' == s[e := s[e].(left := t.elm)]
    ensures IsLesser(s', l, dummy) && IsTree(s', t.left) && IsGreater(s', GCons(g, t.elm, t.right), dummy)
  {
    assert GEnd(g, dummy) in GreaterElems(g) + {dummy};
    FrameTree(s, s', t.left);
    FrameTree(s, s', t.right);
    FrameLesser(s, s', l, dummy);
    FrameGreater(s, s', g, dummy);
  }

  /** Moving the root with its left subtree to the lesser tree (SPLAY_LINKRIGHT). */
  lemma LinkRightStore(s: Store, s': Store, l: Lesser, t: Tree, g: Greater, dummy: Node)
    requires t.Bin? && IsLesser(s, l, dummy) && IsTree(s, t) && IsGreater(s, g, dummy) && Apart(l, t, g, dummy)
    requires var e := LEnd(l, dummy); e in s && s' == s[e := s[e].(right := t.elm)]
    ensures IsLesser(s', LCons(l, t.left, t.elm), dummy) && IsTree(s', t.right) && IsGreater(s', g, dummy)
  {
    assert LEnd(l, dummy) in LesserElems(l) + {dummy};
    FrameTree(s, s', t.left);
    FrameTree(s, s', t.right);
    FrameLesser(s, s', l, dummy);
    FrameGreater(s, s', g, dummy);
  }

  lemma LinkApart(l: Lesser, t: Tree, g: Greater, dummy: Node)
    requires t.Bin? && Apart(l, t, g, dummy)
    ensures Apart(l, t.left, GCons(g, t.elm, t.right), dummy)
    ensures Apart(LCons(l, t.left, t.elm), t.right, g, dummy)
  {
  }

  function RotR(t: Tree): Tree
    requires t.Bin? && t.left.Bin?
  {
    Bin(t.left.left, t.left.elm, Bin(t.left.right, t.elm, t.right))
  }

  function RotL(t: Tree): Tree
    requires t.Bin? && t.right.Bin?
  {
    Bin(Bin(t.left, t.elm, t.right.left), t.right.elm, t.right.right)
  }

  lemma RotRStore(s: Store, s': Store, t: Tree)
    requires t.Bin? && t.left.Bin? && IsTree(s, t) && Distinct(t)
    requires var x, y := t.elm, t.left.elm;
             y in s && s' == s[x := s[x].(left := s[y].right)][y := s[y].(right := x)]
    ensures IsTree(s', RotR(t)) && Distinct(RotR(t)) && Elems(RotR(t)) == Elems(t)
  {
    assert IsTree(s, t.left.left) && IsTree(s, t.left.right);
    FrameTree(s, s', t.left.left);
    FrameTree(s, s', t.left.right);
    FrameTree(s, s', t.right);
  }

  lemma RotLStore(s: Store, s': Store, t: Tree)
    requires t.Bin? && t.right.Bin? && IsTree(s, t) && Distinct(t)
    requires var x, y := t.elm, t.right.elm;
             y in s && s' == s[x := s[x].(right := s[y].left)][y := s[y].(left := x)]
    ensures IsTree(s', RotL(t)) && Distinct(RotL(t)) && Elems(RotL(t)) == Elems(t)
  {
    assert IsTree(s, t.right.left) && IsTree(s, t.right.right);
    FrameTree(s, s', t.right.right);
    FrameTree(s, s', t.right.left);
    FrameTree(s, s', t.left);
  }

  lemma RotInorder(t: Tree)
    requires t.Bin?
    ensures t.left.Bin? ==> Inorder(RotR(t)) == Inorder(t)
    ensures t.right.Bin? ==> Inorder(RotL(t)) == Inorder(t)
  {
    if t.left.Bin? {
      Regroup(Inorder(t.left.left), [t.left.elm], Inorder(t.left.right), [t.elm], Inorder(t.right));
    }
    if t.right.Bin? {
      Regroup(Inorder(t.left), [t.elm], Inorder(t.right.left), [t.right.elm], Inorder(t.right.right));
    }
  }

  lemma SidesShorter(t: Tree)
    requires t.Bin?
    ensures |Inorder(t.left)| < |Inorder(t)| && |Inorder(t.right)| < |Inorder(t)|
  {
  }

  lemma Regroup(a: seq<Node>, x: seq<Node>, b: seq<Node>, y: seq<Node>, c: seq<Node>)
    ensures a + x + (b + y + c) == (a + x + b) + y + c
  {
  }

  lemma Regather(a: seq<Node>, b: seq<Node>, x: Node, c: seq<Node>, d: seq<Node>)
    ensures (a + b) + [x] + (c + d) == a + (b + [x] + c) + d
  {
  }

  /** The three parts put together. */
  function Whole(l: Lesser, t: Tree, g: Greater): Tree
    requires t.Bin?
  {
    Bin(CloseLesser(l, t.left), t.elm, CloseGreater(g, t.right))
  }

  // ---- a splay in progress ----------------------------------------------------------

  /** What has been set aside on either side, and the tree still to be searched. */
  datatype Parts = Parts(l: Lesser, t: Tree, g: Greater)

  function Flat(p: Parts): seq<Node> {
    InLesser(p.l) + Inorder(p.t) + InGreater(p.g)
  }

  ghost predicate Pieces(s: Store, p: Parts, dummy: Node) {
    && p.t.Bin? && Apart(p.l, p.t, p.g, dummy)
    && IsLesser(s, p.l, dummy) && IsTree(s, p.t) && IsGreater(s, p.g, dummy)
    && s.Keys == LesserElems(p.l) + Elems(p.t) + GreaterElems(p.g) + {dummy}
  }

  function LinkedLeft(p: Parts): Parts
    requires p.t.Bin?
  {
    Parts(p.l, p.t.left, GCons(p.g, p.t.elm, p.t.right))
  }

  function LinkedRight(p: Parts): Parts
    requires p.t.Bin?
  {
    Parts(LCons(p.l, p.t.left, p.t.elm), p.t.right, p.g)
  }

  lemma EndsPresent(s: Store, p: Parts, dummy: Node)
    requires Pieces(s, p, dummy)
    ensures p.t.Bin? && dummy in s && dummy != p.t.elm
    ensures LEnd(p.l, dummy) in s && GEnd(p.g, dummy) in s && p.t.elm in s
    ensures LEnd(p.l, dummy) != p.t.elm && GEnd(p.g, dummy) != p.t.elm
    ensures p.t.left.Bin? ==> p.t.left.elm in s && p.t.left.elm != p.t.elm
    ensures p.t.right.Bin? ==> p.t.right.elm in s && p.t.right.elm != p.t.elm
    ensures s[p.t.elm] == Cell(Ptr(p.t.left), Ptr(p.t.right))
  {
    assert LEnd(p.l, dummy) in LesserElems(p.l) + {dummy};
    assert GEnd(p.g, dummy) in GreaterElems(p.g) + {dummy};
  }

  lemma LinkedFlat(p: Parts)
    requires p.t.Bin?
    ensures Flat(LinkedLeft(p)) == Flat(p) && Flat(LinkedRight(p)) == Flat(p)
  {
  }

  lemma PiecesLinkLeft(s: Store, s': Store, p: Parts, dummy: Node)
    requires Pieces(s, p, dummy) && p.t.left.Bin?
    requires var e := GEnd(p.g, dummy); e in s && s' == s[e := s[e].(left := p.t.elm)]
    ensures Pieces(s', LinkedLeft(p), dummy) && Flat(LinkedLeft(p)) == Flat(p)
  {
    LinkLeftStore(s, s', p.l, p.t, p.g, dummy);
    LinkApart(p.l, p.t, p.g, dummy);
    LinkedFlat(p);
    hide IsTree, IsLesser, IsGreater, Apart, Inorder, Flat;
    assert s'.Keys == s.Keys;
  }

  lemma PiecesLinkRight(s: Store, s': Store, p: Parts, dummy: Node)
    requires Pieces(s, p, dummy) && p.t.right.Bin?
    requires var e := LEnd(p.l, dummy); e in s && s' == s[e := s[e].(right := p.t.elm)]
    ensures Pieces(s', LinkedRight(p), dummy) && Flat(LinkedRight(p)) == Flat(p)
  {
    LinkRightStore(s, s', p.l, p.t, p.g, dummy);
    LinkApart(p.l, p.t, p.g, dummy);
    LinkedFlat(p);
    hide IsTree, IsLesser, IsGreater, Apart, Inorder, Flat;
    assert s'.Keys == s.Keys;
  }

  lemma PiecesRotR(s: Store, s': Store, p: Parts, dummy: Node)
    requires Pieces(s, p, dummy) && p.t.left.Bin?
    requires var x, y := p.t.elm, p.t.left.elm;
             x in s && y in s && s' == s[x := s[x].(left := s[y].right)][y := s[y].(right := x)]
    ensures Pieces(s', p.(t := RotR(p.t)), dummy) && Flat(p.(t := RotR(p.t))) == Flat(p)
  {
    RotRStore(s, s', p.t);
    RotInorder(p.t);
    SpinesKept(s, s', p.l, p.g, dummy, Elems(p.t));
    hide IsTree, IsLesser, IsGreater, Inorder;
    assert s'.Keys == s.Keys;
  }

  lemma PiecesRotL(s: Store, s': Store, p: Parts, dummy: Node)
    requires Pieces(s, p, dummy) && p.t.right.Bin?
    requires var x, y := p.t.elm, p.t.right.elm;
             x in s && y in s && s' == s[x := s[x].(right := s[y].left)][y := s[y].(left := x)]
    ensures Pieces(s', p.(t := RotL(p.t)), dummy) && Flat(p.(t := RotL(p.t))) == Flat(p)
  {
    RotLStore(s, s', p.t);
    RotInorder(p.t);
    SpinesKept(s, s', p.l, p.g, dummy, Elems(p.t));
    hide IsTree, IsLesser, IsGreater, Inorder;
    assert s'.Keys == s.Keys;
  }

  /** Closing both spines makes one tree of the three parts (SPLAY_ASSEMBLE). */
  lemma Assembled(s: Store, s2: Store, p: Parts, dummy: Node)
    requires Pieces(s, p, dummy) && s2.Keys == s.Keys
    requires LEnd(p.l, dummy) in s && GEnd(p.g, dummy) in s && p.t.elm in s
    requires forall e :: e in s ==> s2[e].right == if e == LEnd(p.l, dummy) then Ptr(p.t.left) else s[e].right
    requires forall e :: e in s ==> s2[e].left == if e == GEnd(p.g, dummy) then Ptr(p.t.right) else s[e].left
    ensures dummy in s2
    ensures IsTree(s2[p.t.elm := Cell(s2[dummy].right, s2[dummy].left)], Whole(p.l, p.t, p.g))
  {
    var l, g := p.l, p.g;
    SpinesOpen(s, s2, p, dummy);
    CloseLesserTree(s2, l, p.t.left, dummy);
    CloseGreaterTree(s2, g, p.t.right, dummy);
    AssembledParts(l, p.t, g, dummy);
    hide CloseLesser, CloseGreater, InLesser, InGreater, LesserElems, GreaterElems, IsLesser, IsGreater, Apart;
    hide Inorder, Distinct, Elems, Flat, LDistinct, GDistinct;
    var s3 := s2[p.t.elm := Cell(s2[dummy].right, s2[dummy].left)];
    FrameTree(s2, s3, CloseLesser(l, p.t.left));
    FrameTree(s2, s3, CloseGreater(g, p.t.right));
  }

  lemma AssembledContents(s: Store, p: Parts, dummy: Node)
    requires Pieces(s, p, dummy)
    ensures Distinct(Whole(p.l, p.t, p.g)) && Elems(Whole(p.l, p.t, p.g)) == s.Keys - {dummy}
    ensures Inorder(Whole(p.l, p.t, p.g)) == Flat(p)
  {
    AssembledParts(p.l, p.t, p.g, dummy);
    hide CloseLesser, CloseGreater, InLesser, InGreater, LesserElems, GreaterElems, IsLesser, IsGreater;
    hide Inorder, Distinct, Elems, LDistinct, GDistinct, Whole, IsTree;
  }

  lemma SpinesOpen(s: Store, s': Store, p: Parts, dummy: Node)
    requires Pieces(s, p, dummy)
    requires s'.Keys == s.Keys
    requires forall e :: e in s && e != LEnd(p.l, dummy) ==> s'[e].right == s[e].right
    requires forall e :: e in s && e != GEnd(p.g, dummy) ==> s'[e].left == s[e].left
    ensures IsTree(s', p.t.left) && IsTree(s', p.t.right) && IsLesser(s', p.l, dummy) && IsGreater(s', p.g, dummy)
  {
    assert LEnd(p.l, dummy) in LesserElems(p.l) + {dummy};
    assert GEnd(p.g, dummy) in GreaterElems(p.g) + {dummy};
    FrameTree(s, s', p.t.left);
    FrameTree(s, s', p.t.right);
    FrameLesser(s, s', p.l, dummy);
    FrameGreater(s, s', p.g, dummy);
  }

  lemma ApartSides(l: Lesser, t: Tree, g: Greater, dummy: Node)
    requires t.Bin? && Apart(l, t, g, dummy)
    ensures LesserElems(l) !! Elems(t.left) && GreaterElems(g) !! Elems(t.right)
    ensures LesserElems(l) + Elems(t.left) !! Elems(t.right) + GreaterElems(g)
    ensures t.elm !in LesserElems(l) + Elems(t.left) && t.elm !in Elems(t.right) + GreaterElems(g)
    ensures Distinct(t.left) && Distinct(t.right) && LDistinct(l) && GDistinct(g)
  {
  }

  lemma AssembledParts(l: Lesser, t: Tree, g: Greater, dummy: Node)
    requires t.Bin? && Apart(l, t, g, dummy)
    ensures Distinct(Whole(l, t, g))
    ensures t.elm !in Elems(CloseLesser(l, t.left)) && t.elm !in Elems(CloseGreater(g, t.right))
    ensures Elems(Whole(l, t, g)) == LesserElems(l) + Elems(t) + GreaterElems(g)
    ensures Inorder(Whole(l, t, g)) == InLesser(l) + Inorder(t) + InGreater(g)
  {
    AssembledDistinct(l, t, g, dummy);
    AssembledElems(l, t, g);
    AssembledInorder(l, t, g);
  }

  lemma AssembledDistinct(l: Lesser, t: Tree, g: Greater, dummy: Node)
    requires t.Bin? && Apart(l, t, g, dummy)
    ensures Distinct(Whole(l, t, g))
    ensures t.elm !in Elems(CloseLesser(l, t.left)) && t.elm !in Elems(CloseGreater(g, t.right))
  {
    hide Apart, CloseLesser, CloseGreater, LesserElems, GreaterElems, LDistinct, GDistinct, Elems, Inorder;
    ApartSides(l, t, g, dummy);
    CloseLesserElems(l, t.left);
    CloseGreaterElems(g, t.right);
    CloseLesserDistinct(l, t.left);
    CloseGreaterDistinct(g, t.right);
  }

  lemma AssembledElems(l: Lesser, t: Tree, g: Greater)
    requires t.Bin?
    ensures Elems(Whole(l, t, g)) == LesserElems(l) + Elems(t) + GreaterElems(g)
  {
    hide CloseLesser, CloseGreater, LesserElems, GreaterElems;
    CloseLesserElems(l, t.left);
    CloseGreaterElems(g, t.right);
  }

  lemma AssembledInorder(l: Lesser, t: Tree, g: Greater)
    requires t.Bin?
    ensures Inorder(Whole(l, t, g)) == InLesser(l) + Inorder(t) + InGreater(g)
  {
    hide CloseLesser, CloseGreater, InLesser, InGreater;
    CloseLesserInorder(l, t.left);
    CloseGreaterInorder(g, t.right);
    Regather(InLesser(l), Inorder(t.left), t.elm, Inorder(t.right), InGreater(g));
  }

  lemma {:induction false} CloseLesserDistinct(l: Lesser, t: Tree)
    requires LDistinct(l) && Distinct(t) && LesserElems(l) !! Elems(t)
    ensures Distinct(CloseLesser(l, t))
    decreases l
  {
    match l
    case LNil =>
    case LCons(up, a, e) => CloseLesserDistinct(up, Bin(a, e, t));
  }

  lemma {:induction false} CloseGreaterDistinct(g: Greater, t: Tree)
    requires GDistinct(g) && Distinct(t) && GreaterElems(g) !! Elems(t)
    ensures Distinct(CloseGreater(g, t))
    decreases g
  {
    match g
    case GNil =>
    case GCons(up, e, a) => CloseGreaterDistinct(up, Bin(t, e, a));
  }

  // ---- the search -------------------------------------------------------------------

  /** Everything set aside lies on its side of the key. */
  ghost predicate Sided(p: Parts, key: int) {
    && (forall e :: e in InLesser(p.l) ==> e.key < key)
    && (forall e :: e in InGreater(p.g) ==> key < e.key)
  }

  /** No member lies between `r` and the key; a member with the key can only be `r`. */
  ghost predicate Nearest(q: seq<Node>, r: Node, key: int) {
    r in q && forall e :: e in q ==> !(key <= e.key < r.key) && !(r.key < e.key <= key)
  }

  lemma SortedAround(a: seq<Node>, x: Node, b: seq<Node>)
    requires Sorted(a + [x] + b)
    ensures Sorted(a) && Sorted(b)
    ensures forall e :: e in a ==> e.key < x.key
    ensures forall e :: e in b ==> x.key < e.key
  {
    var q := a + [x] + b;
    forall i, j | 0 <= i < j < |a| ensures a[i].key < a[j].key {
      assert q[i] == a[i] && q[j] == a[j];
    }
    forall i, j | 0 <= i < j < |b| ensures b[i].key < b[j].key {
      assert q[|a| + 1 + i] == b[i] && q[|a| + 1 + j] == b[j];
    }
    forall e | e in a ensures e.key < x.key {
      var i :| 0 <= i < |a| && a[i] == e;
      assert q[i] == e && q[|a|] == x;
    }
    forall e | e in b ensures x.key < e.key {
      var i :| 0 <= i < |b| && b[i] == e;
      assert q[|a| + 1 + i] == e && q[|a|] == x;
    }
  }

  lemma FlatAround(p: Parts)
    requires p.t.Bin?
    ensures Flat(p) == (InLesser(p.l) + Inorder(p.t.left)) + [p.t.elm] + (Inorder(p.t.right) + InGreater(p.g))
  {
    Regather(InLesser(p.l), Inorder(p.t.left), p.t.elm, Inorder(p.t.right), InGreater(p.g));
  }

  lemma LinkedSided(p: Parts, key: int)
    requires p.t.Bin? && Sorted(Flat(p)) && Sided(p, key)
    ensures key < p.t.elm.key ==> Sided(LinkedLeft(p), key)
    ensures p.t.elm.key < key ==> Sided(LinkedRight(p), key)
  {
    FlatAround(p);
    SortedAround(InLesser(p.l) + Inorder(p.t.left), p.t.elm, Inorder(p.t.right) + InGreater(p.g));
    hide Sorted, Inorder, Flat;
  }

  /** Where the search stops, its root is the nearest member. */
  lemma StopNearest(p: Parts, key: int)
    requires p.t.Bin? && Sorted(Flat(p)) && Sided(p, key)
    requires key == p.t.elm.key || (key < p.t.elm.key && p.t.left.Leaf?) || (p.t.elm.key < key && p.t.right.Leaf?)
    ensures Nearest(Flat(p), p.t.elm, key)
  {
    FlatAround(p);
    SortedAround(InLesser(p.l) + Inorder(p.t.left), p.t.elm, Inorder(p.t.right) + InGreater(p.g));
    hide Sorted, Flat, InLesser, InGreater;
  }

  // ---- insertion and removal at the root ----------------------------------------------

  /** The tree with a new root placed against the old one, on the side of its key. */
  function Topped(t: Tree, elm: Node): Tree
    requires t.Bin?
  {
    if elm.key < t.elm.key then Bin(t.left, elm, Bin(Leaf, t.elm, t.right))
    else Bin(Bin(t.left, t.elm, Leaf), elm, t.right)
  }

  lemma ToppedTree(s: Store, s': Store, t: Tree, elm: Node)
    requires t.Bin? && IsTree(s, t) && Distinct(t) && elm !in Elems(t) && t.elm in s
    requires s' == if elm.key < t.elm.key
                   then s[elm := Cell(s[t.elm].left, t.elm)][t.elm := s[t.elm].(left := null)]
                   else s[elm := Cell(t.elm, s[t.elm].right)][t.elm := s[t.elm].(right := null)]
    ensures IsTree(s', Topped(t, elm)) && Distinct(Topped(t, elm)) && Elems(Topped(t, elm)) == Elems(t) + {elm}
  {
    ToppedElems(t, elm);
    FrameTree(s, s', t.left);
    FrameTree(s, s', t.right);
    hide Elems, Distinct;
    assert IsTree(s', Leaf);
    if elm.key < t.elm.key {
      assert IsTree(s', Bin(Leaf, t.elm, t.right));
    } else {
      assert IsTree(s', Bin(t.left, t.elm, Leaf));
    }
  }

  lemma ToppedElems(t: Tree, elm: Node)
    requires t.Bin? && Distinct(t) && elm !in Elems(t)
    ensures Distinct(Topped(t, elm)) && Elems(Topped(t, elm)) == Elems(t) + {elm}
  {
    assert Elems(Leaf) == {} && Distinct(Leaf);
    assert Elems(Bin(Leaf, t.elm, t.right)) == {t.elm} + Elems(t.right);
    assert Elems(Bin(t.left, t.elm, Leaf)) == Elems(t.left) + {t.elm};
  }

  lemma ToppedRoot(t: Tree, elm: Node)
    requires t.Bin?
    ensures Topped(t, elm).Bin? && Topped(t, elm).elm == elm
  {
  }

  lemma RootIn(t: Tree)
    requires t.Bin?
    ensures t.elm in Elems(t)
  {
  }

  lemma Regroup3(a: seq<Node>, x: Node, b: seq<Node>)
    ensures a + [x] + b == a + ([x] + b)
  {
  }

  lemma ToppedInorder(t: Tree, elm: Node)
    requires t.Bin?
    ensures var (a, b) := (Inorder(t.left), Inorder(t.right));
            Inorder(Topped(t, elm)) == if elm.key < t.elm.key then a + [elm] + ([t.elm] + b)
                                       else (a + [t.elm]) + [elm] + b
  {
    assert Inorder(Leaf) == [];
    assert Inorder(Bin(Leaf, t.elm, t.right)) == [t.elm] + Inorder(t.right);
    assert Inorder(Bin(t.left, t.elm, Leaf)) == Inorder(t.left) + [t.elm];
  }

  lemma ToppedSorted(t: Tree, elm: Node)
    requires t.Bin? && Sorted(Inorder(t)) && Nearest(Inorder(t), t.elm, elm.key) && elm.key != t.elm.key
    ensures Sorted(Inorder(Topped(t, elm)))
  {
    var a, b := Inorder(t.left), Inorder(t.right);
    assert Inorder(t) == a + [t.elm] + b;
    ToppedInorder(t, elm);
    hide Sorted, Inorder, Topped, Nearest;
    SortedAround(a, t.elm, b);
    NearestSides(a, t.elm, b, elm.key);
    if elm.key < t.elm.key {
      Regroup3(a, t.elm, b);
      forall e | e in [t.elm] + b ensures elm.key < e.key {
        assert e == t.elm || e in b;
      }
      SortedInsert(a, elm, [t.elm] + b);
    } else {
      forall e | e in a + [t.elm] ensures e.key < elm.key {
        assert e == t.elm || e in a;
      }
      SortedInsert(a + [t.elm], elm, b);
    }
  }

  lemma NearestAbsent(t: Tree, r: Node, key: int)
    requires Nearest(Inorder(t), r, key) && r.key != key
    ensures forall e :: e in Elems(t) ==> e.key != key
  {
    ElemsInorder(t);
    hide Elems, Inorder;
  }

  lemma SameKey(q: seq<Node>, r: Node, elm: Node)
    requires Sorted(q) && elm in q && Nearest(q, r, elm.key)
    ensures r == elm
  {
    var i :| 0 <= i < |q| && q[i] == elm;
    var j :| 0 <= j < |q| && q[j] == r;
    assert r.key == elm.key;
  }

  lemma NearestSides(a: seq<Node>, x: Node, b: seq<Node>, key: int)
    requires Nearest(a + [x] + b, x, key)
    requires (forall e :: e in a ==> e.key < x.key) && (forall e :: e in b ==> x.key < e.key)
    ensures key <= x.key ==> forall e :: e in a ==> e.key < key
    ensures x.key <= key ==> forall e :: e in b ==> key < e.key
  {
    forall e | e in a ensures e in a + [x] + b {
    }
    forall e | e in b ensures e in a + [x] + b {
    }
  }

  lemma SortedInsert(a: seq<Node>, x: Node, b: seq<Node>)
    requires Sorted(a + b)
    requires forall e :: e in a ==> e.key < x.key
    requires forall e :: e in b ==> x.key < e.key
    ensures Sorted(a + [x] + b)
  {
    var q, q' := a + b, a + [x] + b;
    forall i, j | 0 <= i < j < |q'| ensures q'[i].key < q'[j].key {
      if i != |a| && j != |a| {
        assert q'[i] == q[if i < |a| then i else i - 1];
        assert q'[j] == q[if j < |a| then j else j - 1];
      } else if i == |a| {
        assert q'[j] in b;
      } else {
        assert q'[i] in a;
      }
    }
  }

  lemma {:induction false} InorderEmpty(t: Tree)
    ensures Inorder(t) == [] <==> t.Leaf?
  {
  }

  /** `r` comes right after `e` in `q`; null when `e` is the last. */
  ghost predicate Follows(q: seq<Node>, e: Node, r: Node?) {
    exists k :: 0 <= k < |q| && q[k] == e && r == if k + 1 < |q| then q[k + 1] else null
  }

  lemma FollowsRoot(t: Tree)
    requires t.Bin?
    ensures t.right.Leaf? ==> Follows(Inorder(t), t.elm, null)
    ensures t.right.Bin? ==> |Inorder(t.right)| > 0 && Follows(Inorder(t), t.elm, Inorder(t.right)[0])
  {
    var q, b, k := Inorder(t), Inorder(t.right), |Inorder(t.left)|;
    InorderEmpty(t.right);
    assert q[k] == t.elm && |q| == k + 1 + |b|;
    if t.right.Bin? {
      assert q[k + 1] == b[0];
      FollowsAt(q, k, b[0]);
    } else {
      FollowsAt(q, k, null);
    }
  }

  lemma FollowsAt(q: seq<Node>, k: nat, r: Node?)
    requires k < |q| && r == if k + 1 < |q| then q[k + 1] else null
    ensures Follows(q, q[k], r)
  {
  }

  /** Splayed with a key above all of its members, a tree has its last member at the root. */
  lemma NothingAbove(t: Tree, key: int)
    requires t.Bin? && Sorted(Inorder(t)) && Nearest(Inorder(t), t.elm, key)
    requires forall e :: e in Inorder(t) ==> e.key < key
    ensures t.right.Leaf?
  {
    var a, b := Inorder(t.left), Inorder(t.right);
    assert Inorder(t) == a + [t.elm] + b;
    assert |b| == 0 || b[0] in b;
    InorderEmpty(t.right);
    SortedAround(a, t.elm, b);
    NearestSides(a, t.elm, b, key);
    hide Inorder, Sorted, Nearest;
  }

  /** The root's key is its own, so the members with other keys are the rest of the tree. */
  lemma RootGone(t: Tree)
    requires t.Bin? && Sorted(Inorder(t)) && Distinct(t)
    ensures Sorted(Inorder(t.left) + Inorder(t.right)) && Sorted(Inorder(t.left)) && Sorted(Inorder(t.right))
    ensures forall e :: e in Inorder(t.left) ==> e.key < t.elm.key
    ensures Elems(t.left) + Elems(t.right) == set e | e in Elems(t) && e.key != t.elm.key
  {
    var a, b := Inorder(t.left), Inorder(t.right);
    SortedAround(a, t.elm, b);
    ElemsInorder(t.left);
    ElemsInorder(t.right);
    SortedDrop(a, t.elm, b);
    hide Inorder, Sorted;
  }

  lemma HalvesDistinct(t: Tree)
    requires t.Bin? && Distinct(t)
    ensures Distinct(t.left) && Distinct(t.right) && Elems(t.left) !! Elems(t.right)
    ensures Elems(t.left) + Elems(t.right) == Elems(t) - {t.elm} && t.elm in Elems(t)
  {
  }

  /** Each subtree in a store of its own. */
  lemma Halves(s: Store, t: Tree, sl: Store, sr: Store)
    requires t.Bin? && IsTree(s, t)
    requires sl.Keys == Elems(t.left) && sr.Keys == Elems(t.right)
    requires forall e :: e in sl && e in s ==> sl[e] == s[e]
    requires forall e :: e in sr && e in s ==> sr[e] == s[e]
    ensures IsTree(sl, t.left) && IsTree(sr, t.right)
    ensures t.elm in s && s[t.elm] == Cell(Ptr(t.left), Ptr(t.right))
  {
    hide Elems;
    FrameTree(s, sl, t.left);
    FrameTree(s, sr, t.right);
  }

  /** A tree without a right subtree takes one from another store. */
  lemma Rejoined(s: Store, sr: Store, s': Store, t: Tree, r: Tree)
    requires t.Bin? && t.right.Leaf? && IsTree(s, t) && Distinct(t) && s.Keys == Elems(t)
    requires IsTree(sr, r) && Distinct(r) && sr.Keys == Elems(r) && Elems(t) !! Elems(r)
    requires s'.Keys == s.Keys + sr.Keys && t.elm in s
    requires forall e :: e in s ==> s'[e] == if e == t.elm then s[e].(right := Ptr(r)) else s[e]
    requires forall e :: e in sr ==> s'[e] == sr[e]
    ensures var t' := Bin(t.left, t.elm, r);
            IsTree(s', t') && Distinct(t') && Elems(t') == s'.Keys && Inorder(t') == Inorder(t) + Inorder(r)
  {
    RejoinedContents(t, r);
    HalvesDistinct(t);
    hide Elems, Distinct, Inorder;
    FrameTree(s, s', t.left);
    FrameTree(sr, s', r);
  }

  lemma RejoinedContents(t: Tree, r: Tree)
    requires t.Bin? && t.right.Leaf? && Distinct(t) && Distinct(r) && Elems(t) !! Elems(r)
    ensures var t' := Bin(t.left, t.elm, r);
            Distinct(t') && Elems(t') == Elems(t) + Elems(r) && Inorder(t') == Inorder(t) + Inorder(r)
  {
    RejoinedInorder(t, r);
    assert Elems(Leaf) == {};
    assert Elems(t) == Elems(t.left) + {t.elm};
    hide Inorder;
  }

  lemma RejoinedInorder(t: Tree, r: Tree)
    requires t.Bin? && t.right.Leaf?
    ensures Inorder(Bin(t.left, t.elm, r)) == Inorder(t) + Inorder(r)
  {
    var a := Inorder(t.left) + [t.elm];
    assert Inorder(Leaf) == [] && a + [] == a;
  }

  lemma SortedDrop(a: seq<Node>, x: Node, b: seq<Node>)
    requires Sorted(a + [x] + b)
    ensures Sorted(a + b)
  {
    var q, q' := a + [x] + b, a + b;
    forall i, j | 0 <= i < j < |q'| ensures q'[i].key < q'[j].key {
      assert q'[i] == q[if i < |a| then i else i + 1];
      assert q'[j] == q[if j < |a| then j else j + 1];
    }
  }

  /** Where a search for an extreme stops, its root is the first or the last member. */
  lemma StopExtreme(p: Parts)
    requires p.t.Bin?
    ensures Flat(p) != []
    ensures p.l.LNil? && p.t.left.Leaf? ==> p.t.elm == Flat(p)[0]
    ensures p.g.GNil? && p.t.right.Leaf? ==> p.t.elm == Flat(p)[|Flat(p)| - 1]
  {
    FlatAround(p);
  }

  ghost function Cells(S: set<Node>): (s: Store)
    reads S
    ensures s.Keys == S
  {
    map e | e in S :: Cell(e.left, e.right)
  }

  class SplayTree {
    var root: Node?
    ghost var t: Tree
    ghost var nodes: set<Node>

    constructor ()
      ensures Valid() && t == Leaf
    {
      root, t, nodes := null, Leaf, {};
    }

    ghost predicate Valid()
      reads this, nodes
    {
      nodes == Elems(t) && root == Ptr(t) && Distinct(t) && IsTree(Cells(nodes), t) && Sorted(Inorder(t))
    }

    /** One assignment to a left link. */
    static method SetLeft(e: Node, x: Node?, ghost S: set<Node>)
      requires e in S
      modifies e`left
      ensures Cells(S) == old(Cells(S)[e := Cells(S)[e].(left := x)])
    {
      e.left := x;
    }

    /** One assignment to a right link. */
    static method SetRight(e: Node, x: Node?, ghost S: set<Node>)
      requires e in S
      modifies e`right
      ensures Cells(S) == old(Cells(S)[e := Cells(S)[e].(right := x)])
    {
      e.right := x;
    }

    /** SPLAY_ROTATE_RIGHT. */
    method RotateRight(tmp: Node, dummy: Node, ghost p: Parts, ghost S: set<Node>) returns (ghost p': Parts)
      requires Pieces(Cells(S), p, dummy) && root == p.t.elm && p.t.left.Bin? && tmp == p.t.left.elm
      modifies this`root, S
      ensures p' == p.(t := RotR(p.t)) && Pieces(Cells(S), p', dummy) && root == p'.t.elm && Flat(p') == Flat(p)
    {
      hide IsTree, IsLesser, IsGreater, Apart, Pieces, Flat, Inorder, Elems;
      ghost var s := Cells(S);
      EndsPresent(s, p, dummy);
      assert s[tmp].right == tmp.right;
      hide Cells;
      SetLeft(root, tmp.right, S);
      SetRight(tmp, root, S);
      root := tmp;
      PiecesRotR(s, Cells(S), p, dummy);
      p' := p.(t := RotR(p.t));
    }

    /** SPLAY_ROTATE_LEFT. */
    method RotateLeft(tmp: Node, dummy: Node, ghost p: Parts, ghost S: set<Node>) returns (ghost p': Parts)
      requires Pieces(Cells(S), p, dummy) && root == p.t.elm && p.t.right.Bin? && tmp == p.t.right.elm
      modifies this`root, S
      ensures p' == p.(t := RotL(p.t)) && Pieces(Cells(S), p', dummy) && root == p'.t.elm && Flat(p') == Flat(p)
    {
      hide IsTree, IsLesser, IsGreater, Apart, Pieces, Flat, Inorder, Elems;
      ghost var s := Cells(S);
      EndsPresent(s, p, dummy);
      assert s[tmp].left == tmp.left;
      hide Cells;
      SetRight(root, tmp.left, S);
      SetLeft(tmp, root, S);
      root := tmp;
      PiecesRotL(s, Cells(S), p, dummy);
      p' := p.(t := RotL(p.t));
    }

    /** SPLAY_LINKLEFT. */
    method LinkLeft(right: Node, dummy: Node, ghost p: Parts, ghost S: set<Node>)
      returns (right': Node, ghost p': Parts)
      requires Pieces(Cells(S), p, dummy) && root == p.t.elm && p.t.left.Bin? && right == GEnd(p.g, dummy)
      modifies this`root, S
      ensures p' == LinkedLeft(p) && Pieces(Cells(S), p', dummy) && Flat(p') == Flat(p)
      ensures root == p'.t.elm && right' == GEnd(p'.g, dummy)
    {
      hide IsTree, IsLesser, IsGreater, Apart, Pieces, Flat, Inorder, Elems;
      ghost var s := Cells(S);
      EndsPresent(s, p, dummy);
      SetLeft(right, root, S);
      PiecesLinkLeft(s, Cells(S), p, dummy);
      right' := root;
      root := root.left;
      p' := LinkedLeft(p);
    }

    /** SPLAY_LINKRIGHT. */
    method LinkRight(left: Node, dummy: Node, ghost p: Parts, ghost S: set<Node>)
      returns (left': Node, ghost p': Parts)
      requires Pieces(Cells(S), p, dummy) && root == p.t.elm && p.t.right.Bin? && left == LEnd(p.l, dummy)
      modifies this`root, S
      ensures p' == LinkedRight(p) && Pieces(Cells(S), p', dummy) && Flat(p') == Flat(p)
      ensures root == p'.t.elm && left' == LEnd(p'.l, dummy)
    {
      hide IsTree, IsLesser, IsGreater, Apart, Pieces, Flat, Inorder, Elems;
      ghost var s := Cells(S);
      EndsPresent(s, p, dummy);
      SetRight(left, root, S);
      PiecesLinkRight(s, Cells(S), p, dummy);
      left' := root;
      root := root.right;
      p' := LinkedRight(p);
    }

    /** SPLAY_ASSEMBLE. */
    method Assemble(dummy: Node, left: Node, right: Node, ghost p: Parts, ghost S: set<Node>)
      requires Pieces(Cells(S), p, dummy) && root == p.t.elm
      requires left == LEnd(p.l, dummy) && right == GEnd(p.g, dummy)
      modifies S
      ensures IsTree(Cells(S), Whole(p.l, p.t, p.g)) && root == p.t.elm
      ensures Distinct(Whole(p.l, p.t, p.g)) && Elems(Whole(p.l, p.t, p.g)) == S - {dummy}
      ensures Inorder(Whole(p.l, p.t, p.g)) == Flat(p)
    {
      ghost var s := Cells(S);
      EndsPresent(s, p, dummy);
      AssembledContents(s, p, dummy);
      hide IsTree, IsLesser, IsGreater, Apart, Pieces, Whole, Inorder, Flat, Elems, Distinct;
      CloseSpines(left, right, S);
      ghost var s2 := Cells(S);
      Assembled(s, s2, p, dummy);
      TakeSpines(dummy, S);
    }

    /** The first two assignments of SPLAY_ASSEMBLE. */
    method CloseSpines(left: Node, right: Node, ghost S: set<Node>)
      requires root != null && root in S && left in S && right in S && left != root && right != root
      modifies S
      ensures root == old(root)
      ensures forall e :: e in S ==> Cells(S)[e].right == old(if e == left then root.left else Cells(S)[e].right)
      ensures forall e :: e in S ==> Cells(S)[e].left == old(if e == right then root.right else Cells(S)[e].left)
    {
      left.right := root.left;
      right.left := root.right;
    }

    /** The last two assignments of SPLAY_ASSEMBLE. */
    method TakeSpines(dummy: Node, ghost S: set<Node>)
      requires root != null && root in S && dummy in S && dummy != root
      modifies root
      ensures root == old(root)
      ensures Cells(S) == old(Cells(S)[root := Cell(dummy.right, dummy.left)])
    {
      root.left := dummy.right;
      root.right := dummy.left;
    }

    /** The body of SPLAY's loop where the key is below the root's. */
    method StepLeft(key: int, right: Node, dummy: Node, ghost p: Parts, ghost S: set<Node>)
      returns (done: bool, right': Node, ghost p': Parts)
      requires Pieces(Cells(S), p, dummy) && root == p.t.elm && right == GEnd(p.g, dummy)
      requires Sorted(Flat(p)) && Sided(p, key) && key < p.t.elm.key
      modifies this`root, S
      ensures Pieces(Cells(S), p', dummy) && root == p'.t.elm && right' == GEnd(p'.g, dummy) && p'.l == p.l
      ensures Flat(p') == Flat(p) && Sided(p', key)
      ensures done ==> key < p'.t.elm.key && p'.t.left.Leaf?
      ensures !done ==> |Inorder(p'.t)| < |Inorder(p.t)|
    {
      hide IsTree, IsLesser, IsGreater, Apart, Pieces, Flat, Sorted, InLesser, InGreater, Inorder, Elems;
      EndsPresent(Cells(S), p, dummy);
      RotInorder(p.t);
      var tmp := root.left;
      if tmp == null {
        return true, right, p;
      }
      p' := p;
      if key < tmp.key {
        p' := RotateRight(tmp, dummy, p, S);
        if root.left == null {
          EndsPresent(Cells(S), p', dummy);
          return true, right, p';
        }
        EndsPresent(Cells(S), p', dummy);
      }
      LinkedSided(p', key);
      SidesShorter(p'.t);
      right', p' := LinkLeft(right, dummy, p', S);
      done := false;
    }

    /** The body of SPLAY's loop where the key is above the root's. */
    method StepRight(key: int, left: Node, dummy: Node, ghost p: Parts, ghost S: set<Node>)
      returns (done: bool, left': Node, ghost p': Parts)
      requires Pieces(Cells(S), p, dummy) && root == p.t.elm && left == LEnd(p.l, dummy)
      requires Sorted(Flat(p)) && Sided(p, key) && p.t.elm.key < key
      modifies this`root, S
      ensures Pieces(Cells(S), p', dummy) && root == p'.t.elm && left' == LEnd(p'.l, dummy) && p'.g == p.g
      ensures Flat(p') == Flat(p) && Sided(p', key)
      ensures done ==> p'.t.elm.key < key && p'.t.right.Leaf?
      ensures !done ==> |Inorder(p'.t)| < |Inorder(p.t)|
    {
      hide IsTree, IsLesser, IsGreater, Apart, Pieces, Flat, Sorted, InLesser, InGreater, Inorder, Elems;
      EndsPresent(Cells(S), p, dummy);
      RotInorder(p.t);
      var tmp := root.right;
      if tmp == null {
        return true, left, p;
      }
      p' := p;
      if tmp.key < key {
        p' := RotateLeft(tmp, dummy, p, S);
        if root.right == null {
          EndsPresent(Cells(S), p', dummy);
          return true, left, p';
        }
        EndsPresent(Cells(S), p', dummy);
      }
      LinkedSided(p', key);
      SidesShorter(p'.t);
      left', p' := LinkRight(left, dummy, p', S);
      done := false;
    }

    /** SPLAY's loop. */
    method Search(key: int, dummy: Node, ghost p0: Parts, ghost S: set<Node>)
      returns (left: Node, right: Node, ghost p: Parts)
      requires Pieces(Cells(S), p0, dummy) && root == p0.t.elm && p0.l.LNil? && p0.g.GNil? && Sorted(Flat(p0))
      modifies this`root, S
      ensures Pieces(Cells(S), p, dummy) && root == p.t.elm && left == LEnd(p.l, dummy) && right == GEnd(p.g, dummy)
      ensures Flat(p) == Flat(p0) && Nearest(Flat(p), root, key)
    {
      p := p0;
      left, right := dummy, dummy;
      var done := false;
      assert Sided(p, key);
      hide IsTree, IsLesser, IsGreater, Apart, Flat, Sorted, InLesser, InGreater, Nearest, Sided;
      while !done && key != root.key
        invariant Pieces(Cells(S), p, dummy) && root == p.t.elm
        invariant left == LEnd(p.l, dummy) && right == GEnd(p.g, dummy)
        invariant Flat(p) == Flat(p0) && Sided(p, key)
        invariant done ==> (key < root.key && p.t.left.Leaf?) || (root.key < key && p.t.right.Leaf?)
        decreases !done, |Inorder(p.t)|
      {
        if key < root.key {
          done, right, p := StepLeft(key, right, dummy, p, S);
        } else {
          done, left, p := StepRight(key, left, dummy, p, S);
        }
      }
      StopNearest(p, key);
    }

    /** What every splay begins with: the whole tree, and a node of its own for the two spines. */
    method Begin() returns (dummy: Node, ghost p: Parts, ghost S: set<Node>)
      requires Valid() && root != null
      ensures fresh(dummy) && S == nodes + {dummy} && p == Parts(LNil, t, GNil)
      ensures Pieces(Cells(S), p, dummy) && Flat(p) == Inorder(t)
    {
      dummy := new Node(0);
      S := nodes + {dummy};
      p := Parts(LNil, t, GNil);
      FrameTree(Cells(nodes), Cells(S), t);
    }

    method Finish(dummy: Node, left: Node, right: Node, ghost p: Parts, ghost S: set<Node>)
      requires Pieces(Cells(S), p, dummy) && root == p.t.elm
      requires left == LEnd(p.l, dummy) && right == GEnd(p.g, dummy)
      requires S == nodes + {dummy} && dummy !in nodes && Sorted(Flat(p))
      modifies this`t, S
      ensures Valid() && t.Bin? && root == old(root) && Inorder(t) == Flat(p)
    {
      hide IsTree, IsLesser, IsGreater, Apart, Pieces, Flat, Sorted, InLesser, InGreater, Inorder, Elems, Distinct;
      EndsPresent(Cells(S), p, dummy);
      Assemble(dummy, left, right, p, S);
      t := Whole(p.l, p.t, p.g);
      assert nodes == S - {dummy};
      FrameTree(Cells(S), Cells(nodes), t);
    }

    /** SPLAY: the order is kept, and the member nearest the key comes to the root. */
    method Splay(elm: Node)
      requires Valid() && root != null
      modifies this, nodes
      ensures Valid() && nodes == old(nodes) && t.Bin? && root == t.elm && root in nodes
      ensures Inorder(t) == old(Inorder(t)) && Nearest(Inorder(t), root, elm.key)
    {
      hide IsTree, IsLesser, IsGreater, Apart, Pieces, Flat, Sorted, InLesser, InGreater, Inorder, Nearest;
      var dummy, p, S := Begin();
      var left, right;
      left, right, p := Search(elm.key, dummy, p, S);
      Finish(dummy, left, right, p, S);
    }

    /** The assignments of SPLAY_INSERT once the tree is splayed. */
    method TopLinks(elm: Node, ghost S: set<Node>)
      requires root != null && root in S && elm in S && elm != root
      modifies this`root, elm, root
      ensures root == elm
      ensures old(root) in S &&
              Cells(S) == old(if elm.key < root.key
                              then Cells(S)[elm := Cell(root.left, root)][root := Cells(S)[root].(left := null)]
                              else Cells(S)[elm := Cell(root, root.right)][root := Cells(S)[root].(right := null)])
    {
      if elm.key < root.key {
        elm.left := root.left;
        elm.right := root;
        root.left := null;
      } else {
        elm.right := root.right;
        elm.left := root;
        root.right := null;
      }
      root := elm;
    }

    /** SPLAY_INSERT: a member with the key, which may be the node itself, is returned and nothing
        leaves or enters; otherwise exactly the new node enters. */
    method Insert(elm: Node) returns (r: Node?)
      requires Valid()
      modifies this, nodes, elm
      ensures Valid()
      ensures r != null ==> r in nodes && r.key == elm.key && root == r
      ensures r != null ==> nodes == old(nodes) && Inorder(t) == old(Inorder(t))
      ensures r == null ==> nodes == old(nodes) + {elm} && root == elm
      ensures r == null <==> forall e :: e in old(nodes) ==> e.key != elm.key
      ensures elm in old(nodes) ==> r == elm
    {
      if root == null {
        elm.left, elm.right := null, null;
        root, t, nodes := elm, Bin(Leaf, elm, Leaf), {elm};
        assert Inorder(Leaf) == [] && Elems(Leaf) == {};
        assert Inorder(t) == [elm] && Elems(t) == {elm};
        assert Distinct(t) && IsTree(Cells(nodes), Leaf);
        assert IsTree(Cells(nodes), t);
        assert Sorted([elm]);
        return null;
      }
      Splay(elm);
      hide Inorder, Sorted, IsTree, Distinct;
      if elm.key == root.key {
        if elm in nodes {
          ElemsInorder(t);
          SameKey(Inorder(t), root, elm);
        }
        return root;
      }
      hide Nearest;
      NearestAbsent(t, root, elm.key);
      assert elm !in nodes;
      Top(elm);
      r := null;
    }

    method Top(elm: Node)
      requires Valid() && t.Bin? && elm !in nodes && elm.key != root.key && Nearest(Inorder(t), root, elm.key)
      modifies this, nodes, elm
      ensures Valid() && nodes == old(nodes) + {elm} && root == elm
    {
      hide IsTree, Distinct, Sorted, Inorder, Nearest, Elems, Topped;
      ghost var S := nodes + {elm};
      ghost var s := Cells(S);
      FrameTree(Cells(nodes), s, t);
      ToppedSorted(t, elm);
      RootIn(t);
      TopLinks(elm, S);
      ToppedTree(s, Cells(S), t, elm);
      ToppedRoot(t, elm);
      t, nodes := Topped(t, elm), S;
    }

    /** Removing the root of a tree with a left subtree: that is splayed, and takes the right
        subtree. */
    method Join(elm: Node)
      requires Valid() && t.Bin? && t.left.Bin? && elm.key == root.key
      modifies this, nodes
      ensures Valid() && nodes == old(nodes) - {old(root)}
      ensures Inorder(t) == old(Inorder(t.left) + Inorder(t.right))
    {
      hide IsTree, Inorder, Sorted, Distinct, Nearest, Elems;
      var tmp, r, R := TakeLeft();
      Splay(elm);
      assert IsTree(Cells(R), r);
      NothingAbove(t, elm.key);
      Rejoin(tmp, r, R);
    }

    method TakeLeft() returns (tmp: Node?, ghost r: Tree, ghost R: set<Node>)
      requires Valid() && t.Bin? && t.left.Bin?
      modifies this
      ensures Valid() && t == old(t.left) && root != null && nodes == Elems(t)
      ensures r == old(t.right) && tmp == Ptr(r) && R == Elems(r) && IsTree(Cells(R), r) && Distinct(r) && R !! nodes
      ensures nodes + R == old(nodes) - {old(root)} && Sorted(Inorder(t) + Inorder(r))
      ensures forall e :: e in Inorder(t) ==> e.key < old(root.key)
    {
      hide IsTree, Distinct, Inorder, Sorted, Elems;
      r, R := t.right, Elems(t.right);
      RootGone(t);
      HalvesDistinct(t);
      Halves(Cells(nodes), t, Cells(Elems(t.left)), Cells(R));
      tmp := root.right;
      root := root.left;
      t, nodes := t.left, Elems(t.left);
    }

    method Rejoin(tmp: Node?, ghost r: Tree, ghost R: set<Node>)
      requires Valid() && t.Bin? && t.right.Leaf? && tmp == Ptr(r) && R == Elems(r)
      requires IsTree(Cells(R), r) && Distinct(r) && R !! nodes && Sorted(Inorder(t) + Inorder(r))
      modifies this, root
      ensures Valid() && nodes == old(nodes) + R && Inorder(t) == old(Inorder(t)) + Inorder(r)
    {
      hide IsTree, Distinct, Inorder, Sorted, Elems;
      ghost var s, sr := Cells(nodes), Cells(R);
      RootIn(t);
      root.right := tmp;
      nodes := nodes + R;
      Rejoined(s, sr, Cells(nodes), t, r);
      t := Bin(t.left, root, r);
    }

    /** SPLAY_REMOVE: every member with the key, and nothing else, leaves the tree; the argument
        is returned when there was one. */
    method Remove(elm: Node) returns (r: Node?)
      requires Valid()
      modifies this, nodes
      ensures Valid() && nodes == set e | e in old(nodes) && e.key != elm.key
      ensures r == if exists e :: e in old(nodes) && e.key == elm.key then elm else null
    {
      if root == null {
        return null;
      }
      Splay(elm);
      if elm.key == root.key {
        RootGone(t);
        if root.left == null {
          DropRoot();
        } else {
          hide Inorder, Sorted, IsTree, Distinct, Nearest;
          Join(elm);
        }
        return elm;
      }
      NearestAbsent(t, root, elm.key);
      return null;
    }

    method DropRoot()
      requires Valid() && t.Bin? && t.left.Leaf?
      modifies this
      ensures Valid() && nodes == old(nodes) - {old(root)} && Inorder(t) == old(Inorder(t.left) + Inorder(t.right))
    {
      RootGone(t);
      hide Sorted;
      FrameTree(Cells(nodes), Cells(Elems(t.right)), t.right);
      root := root.right;
      t, nodes := t.right, Elems(t.right);
      assert Inorder(Leaf) == [] && Elems(Leaf) == {};
    }

    /** SPLAY_FIND: the member with the key, now at the root, if there is one. */
    method Find(elm: Node) returns (r: Node?)
      requires Valid()
      modifies this, nodes
      ensures Valid() && nodes == old(nodes) && Inorder(t) == old(Inorder(t))
      ensures r == null <==> forall e :: e in nodes ==> e.key != elm.key
      ensures r != null ==> r in nodes && r.key == elm.key && root == r
    {
      if root == null {
        return null;
      }
      Splay(elm);
      hide Inorder, Sorted, IsTree, Distinct;
      if elm.key == root.key {
        return root;
      }
      NearestAbsent(t, root, elm.key);
      return null;
    }

    /** The body of SPLAY_MINMAX's loop, towards the least member. */
    method FarLeft(right: Node, dummy: Node, ghost p: Parts, ghost S: set<Node>)
      returns (done: bool, right': Node, ghost p': Parts)
      requires Pieces(Cells(S), p, dummy) && root == p.t.elm && right == GEnd(p.g, dummy)
      modifies this`root, S
      ensures Pieces(Cells(S), p', dummy) && root == p'.t.elm && right' == GEnd(p'.g, dummy) && p'.l == p.l
      ensures Flat(p') == Flat(p)
      ensures if done then p'.t.left.Leaf? else |Inorder(p'.t)| < |Inorder(p.t)|
    {
      EndsPresent(Cells(S), p, dummy);
      RotInorder(p.t);
      hide IsTree, IsLesser, IsGreater, Apart, Pieces, Flat, InLesser, InGreater;
      var tmp := root.left;
      if tmp == null {
        return true, right, p;
      }
      p' := RotateRight(tmp, dummy, p, S);
      EndsPresent(Cells(S), p', dummy);
      if root.left == null {
        return true, right, p';
      }
      assert |Inorder(p'.t.left)| < |Inorder(p'.t)|;
      right', p' := LinkLeft(right, dummy, p', S);
      done := false;
    }

    /** The body of SPLAY_MINMAX's loop, towards the greatest member. */
    method FarRight(left: Node, dummy: Node, ghost p: Parts, ghost S: set<Node>)
      returns (done: bool, left': Node, ghost p': Parts)
      requires Pieces(Cells(S), p, dummy) && root == p.t.elm && left == LEnd(p.l, dummy)
      modifies this`root, S
      ensures Pieces(Cells(S), p', dummy) && root == p'.t.elm && left' == LEnd(p'.l, dummy) && p'.g == p.g
      ensures Flat(p') == Flat(p)
      ensures if done then p'.t.right.Leaf? else |Inorder(p'.t)| < |Inorder(p.t)|
    {
      EndsPresent(Cells(S), p, dummy);
      RotInorder(p.t);
      hide IsTree, IsLesser, IsGreater, Apart, Pieces, Flat, InLesser, InGreater;
      var tmp := root.right;
      if tmp == null {
        return true, left, p;
      }
      p' := RotateLeft(tmp, dummy, p, S);
      EndsPresent(Cells(S), p', dummy);
      if root.right == null {
        return true, left, p';
      }
      assert |Inorder(p'.t.right)| < |Inorder(p'.t)|;
      left', p' := LinkRight(left, dummy, p', S);
      done := false;
    }

    /** SPLAY_MINMAX's loop. */
    method SearchExtreme(comp: int, dummy: Node, ghost p0: Parts, ghost S: set<Node>)
      returns (left: Node, right: Node, ghost p: Parts)
      requires comp != 0 && Pieces(Cells(S), p0, dummy) && root == p0.t.elm && p0.l.LNil? && p0.g.GNil?
      modifies this`root, S
      ensures Pieces(Cells(S), p, dummy) && root == p.t.elm && left == LEnd(p.l, dummy) && right == GEnd(p.g, dummy)
      ensures Flat(p) == Flat(p0) != []
      ensures root == if comp < 0 then Flat(p)[0] else Flat(p)[|Flat(p)| - 1]
    {
      p := p0;
      left, right := dummy, dummy;
      var done := false;
      hide IsTree, IsLesser, IsGreater, Apart, Flat, InLesser, InGreater, Inorder;
      while !done
        invariant Pieces(Cells(S), p, dummy) && root == p.t.elm
        invariant left == LEnd(p.l, dummy) && right == GEnd(p.g, dummy)
        invariant Flat(p) == Flat(p0) && if comp < 0 then p.l.LNil? else p.g.GNil?
        invariant done ==> if comp < 0 then p.t.left.Leaf? else p.t.right.Leaf?
        decreases !done, |Inorder(p.t)|
      {
        if comp < 0 {
          done, right, p := FarLeft(right, dummy, p, S);
        } else {
          done, left, p := FarRight(left, dummy, p, S);
        }
      }
      StopExtreme(p);
    }

    /** SPLAY_MINMAX: a negative argument brings the least member to the root, a positive one
        the greatest; the order is kept. */
    method MinMax(comp: int)
      requires Valid() && root != null && comp != 0
      modifies this, nodes
      ensures Valid() && nodes == old(nodes) && t.Bin? && root == t.elm
      ensures var q := Inorder(t); q == old(Inorder(t)) && |q| > 0 && root == if comp < 0 then q[0] else q[|q| - 1]
    {
      hide IsTree, IsLesser, IsGreater, Apart, Pieces, Flat, Sorted, InLesser, InGreater, Inorder;
      var dummy, p, S := Begin();
      var left, right;
      left, right, p := SearchExtreme(comp, dummy, p, S);
      Finish(dummy, left, right, p, S);
    }

    /** SPLAY_NEXT's loop: down the left links. */
    method Leftmost(start: Node, ghost sub: Tree, ghost S: set<Node>) returns (r: Node)
      requires IsTree(Cells(S), sub) && sub.Bin? && start == sub.elm
      ensures |Inorder(sub)| > 0 && r == Inorder(sub)[0]
    {
      r := start;
      ghost var rest := sub;
      while r.left != null
        invariant IsTree(Cells(S), rest) && rest.Bin? && r == rest.elm && |Inorder(sub)| > 0
        invariant Inorder(sub)[0] == Inorder(rest)[0]
        decreases rest
      {
        InorderEmpty(rest.left);
        r := r.left;
        rest := rest.left;
      }
    }

    /** SPLAY_NEXT: the member after the given one, or null after the last. */
    method Next(elm: Node) returns (r: Node?)
      requires Valid() && elm in nodes
      modifies this, nodes
      ensures Valid() && nodes == old(nodes) && root == elm
      ensures Inorder(t) == old(Inorder(t)) && Follows(Inorder(t), elm, r)
    {
      ElemsInorder(t);
      Splay(elm);
      SameKey(Inorder(t), root, elm);
      hide Sorted, Nearest, Inorder;
      r := null;
      FollowsRoot(t);
      hide Follows;
      if elm.right != null {
        r := Leftmost(elm.right, t.right, nodes);
      }
    }
  }
}
