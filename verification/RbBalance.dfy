/** Colour rules and black heights of red-black trees and of their contexts,
    and the height bound that follows from them. */
module RbBalance {
  import opened Entries
  import opened RbShape

  predicate IsRed(t: Tree) {
    t.Node? && t.color == Red
  }

  function Count(c: Color): nat {
    if c == Black then 1 else 0
  }

  /** Black nodes on the leftmost path; on every path, when `Balanced`. */
  function BlackHeight(t: Tree): nat {
    match t
    case Leaf => 0
    case Node(l, _, c, _) => BlackHeight(l) + Count(c)
  }

  /** No red node has a red child, and every path has as many black nodes. */
  ghost predicate Balanced(t: Tree) {
    match t
    case Leaf => true
    case Node(l, _, c, r) =>
      Balanced(l) && Balanced(r) && BlackHeight(l) == BlackHeight(r)
      && (c == Red ==> !IsRed(l) && !IsRed(r))
  }

  /** Balanced but for the colour of the root. */
  ghost predicate Nearly(t: Tree) {
    t.Leaf? || (Balanced(t.left) && Balanced(t.right) && BlackHeight(t.left) == BlackHeight(t.right))
  }

  ghost predicate RedBlack(t: Tree) {
    Balanced(t) && !IsRed(t)
  }

  predicate CtxRed(k: Ctx) {
    !k.Top? && k.color == Red
  }

  /** The context is that of a red-black tree whose missing subtree has black height
      `h`; nothing is said of the colour of the missing root. */
  ghost predicate CtxBalanced(k: Ctx, h: nat)
    decreases k
  {
    match k
    case Top => true
    case InLeft(up, _, c, r) =>
      Balanced(r) && BlackHeight(r) == h
      && (c == Red ==> !IsRed(r) && !up.Top? && !CtxRed(up))
      && CtxBalanced(up, h + Count(c))
    case InRight(up, l, _, c) =>
      Balanced(l) && BlackHeight(l) == h
      && (c == Red ==> !IsRed(l) && !up.Top? && !CtxRed(up))
      && CtxBalanced(up, h + Count(c))
  }

  function Depth(k: Ctx): nat {
    if k.Top? then 0 else 1 + Depth(k.up)
  }

  /** A context and a subtree fit: where they meet there is no double red, and a
      subtree that is the whole tree has a black root. */
  predicate Fits(k: Ctx, t: Tree) {
    IsRed(t) ==> !k.Top? && !CtxRed(k)
  }

  lemma {:induction false} PlugRedBlack(k: Ctx, t: Tree)
    ensures RedBlack(Plug(k, t)) <==> Balanced(t) && CtxBalanced(k, BlackHeight(t)) && Fits(k, t)
    decreases k
  {
    match k
    case Top =>
    case InLeft(up, e, c, r) => PlugRedBlack(up, Node(t, e, c, r));
    case InRight(up, l, e, c) => PlugRedBlack(up, Node(l, e, c, t));
  }

  /** What a fix-up loop has on exit; painting the root black then finishes the tree. */
  lemma PlugBalanced(k: Ctx, t: Tree)
    requires t.Node? && Balanced(t) && CtxBalanced(k, BlackHeight(t))
    requires IsRed(t) ==> !CtxRed(k)
    ensures Plug(k, t).Node? && RedBlack(Paint(Plug(k, t), Black))
  {
    PlugRedBlack(k, t);
    PlugNode(k, t);
  }

  lemma {:induction false} PlugNode(k: Ctx, t: Tree)
    requires t.Node? || !k.Top?
    ensures Plug(k, t).Node?
    decreases k
  {
    match k
    case Top =>
    case InLeft(up, e, c, r) => PlugNode(up, Node(t, e, c, r));
    case InRight(up, l, e, c) => PlugNode(up, Node(l, e, c, t));
  }

  // ---- the height bound ---------------------------------------------------

  function Height(t: Tree): nat {
    match t
    case Leaf => 0
    case Node(l, _, _, r) => 1 + (if Height(l) < Height(r) then Height(r) else Height(l))
  }

  function Size(t: Tree): nat {
    match t
    case Leaf => 0
    case Node(l, _, _, r) => Size(l) + 1 + Size(r)
  }

  function Pow2(n: nat): (r: nat)
    ensures r > 0
  {
    if n == 0 then 1 else 2 * Pow2(n - 1)
  }

  lemma {:induction false} SizeInorder(t: Tree)
    ensures Size(t) == |Inorder(t)|
  {
    match t
    case Leaf =>
    case Node(l, _, _, r) =>
      SizeInorder(l);
      SizeInorder(r);
  }

  lemma {:induction false} HeightByBlackHeight(t: Tree)
    requires Balanced(t)
    ensures Height(t) <= 2 * BlackHeight(t) + (if IsRed(t) then 1 else 0)
  {
    match t
    case Leaf =>
    case Node(l, _, _, r) =>
      HeightByBlackHeight(l);
      HeightByBlackHeight(r);
  }

  lemma {:induction false} SizeByBlackHeight(t: Tree)
    requires Balanced(t)
    ensures Pow2(BlackHeight(t)) <= Size(t) + 1
  {
    match t
    case Leaf =>
    case Node(l, _, c, r) =>
      SizeByBlackHeight(l);
      SizeByBlackHeight(r);
  }

  lemma Quadruple(p: nat)
    ensures 4 * (p * p) == (2 * p) * (2 * p)
  {
  }

  lemma {:induction false} Pow2Double(n: nat)
    ensures Pow2(2 * n) == Pow2(n) * Pow2(n)
  {
    if n > 0 {
      Pow2Double(n - 1);
      assert Pow2(2 * n) == 2 * Pow2(2 * n - 1) == 4 * Pow2(2 * (n - 1));
      Quadruple(Pow2(n - 1));
    }
  }

  lemma {:induction false} Pow2Monotone(m: nat, n: nat)
    requires m <= n
    ensures Pow2(m) <= Pow2(n)
  {
    if m < n {
      Pow2Monotone(m, n - 1);
    }
  }

  lemma MulMonotone(a: nat, b: nat)
    requires a <= b
    ensures a * a <= b * b
  {
    assert a * a <= a * b <= b * b;
  }

  /** `h` is at most 2 lg (n+1): two to the `h` is at most the square of `n` plus one. */
  ghost predicate Logarithmic(h: nat, n: nat) {
    Pow2(h) <= (n + 1) * (n + 1)
  }

  /** "The maximum height of a red-black tree is 2 lg (n+1)." */
  lemma HeightBound(t: Tree)
    requires RedBlack(t)
    ensures Logarithmic(Height(t), |Inorder(t)|)
  {
    var b := BlackHeight(t);
    HeightByBlackHeight(t);
    SizeByBlackHeight(t);
    SizeInorder(t);
    Pow2Monotone(Height(t), 2 * b);
    Pow2Double(b);
    MulMonotone(Pow2(b), |Inorder(t)| + 1);
  }

  /** How many entries lie on the way from the root to the place of the key. */
  function OnPath(t: Tree, key: int): nat {
    match t
    case Leaf => 0
    case Node(l, e, _, r) => if key < e.key then 1 + OnPath(l, key) else if key > e.key then 1 + OnPath(r, key) else 1
  }

  lemma {:induction false} PathInHeight(t: Tree, key: int)
    ensures OnPath(t, key) <= Height(t)
  {
    match t
    case Leaf =>
    case Node(l, e, _, r) =>
      PathInHeight(l, key);
      PathInHeight(r, key);
  }

  lemma PathBound(t: Tree, key: int)
    requires RedBlack(t)
    ensures Logarithmic(OnPath(t, key), |Inorder(t)|)
  {
    HeightBound(t);
    PathInHeight(t, key);
    Pow2Monotone(OnPath(t, key), Height(t));
  }
}
