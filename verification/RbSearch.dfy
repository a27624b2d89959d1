/** Search order in contexts: everything before the hole is below the key sought
    and everything after it above. */
module RbSearch {
  import opened Entries
  import opened RbShape

  ghost predicate AllBelow(q: seq<Entry>, key: int) {
    forall x :: x in q ==> x.key < key
  }

  ghost predicate AllAbove(q: seq<Entry>, key: int) {
    forall x :: x in q ==> x.key > key
  }

  /** The hole of `k` is where `key` belongs. */
  ghost predicate Splits(k: Ctx, key: int) {
    AllBelow(Before(k), key) && AllAbove(After(k), key)
  }

  lemma SortedParts(a: seq<Entry>, b: seq<Entry>, c: seq<Entry>)
    requires Sorted(a + b + c)
    ensures Sorted(a) && Sorted(b) && Sorted(c)
    ensures forall x, y :: x in a && y in b ==> x.key < y.key
    ensures forall x, y :: x in b && y in c ==> x.key < y.key
    ensures forall x, y :: x in a && y in c ==> x.key < y.key
  {
    var q := a + b + c;
    assert forall i :: 0 <= i < |a| ==> a[i] == q[i];
    assert forall i :: 0 <= i < |b| ==> b[i] == q[|a| + i];
    assert forall i :: 0 <= i < |c| ==> c[i] == q[|a| + |b| + i];
  }

  /** Every part of a sorted tree is sorted, around any hole. */
  lemma SubtreeSorted(k: Ctx, t: Tree)
    requires Sorted(Inorder(Plug(k, t)))
    ensures Sorted(Inorder(t))
  {
    PlugInorder(k, t);
    SortedParts(Before(k), Inorder(t), After(k));
  }

  lemma GoLeft(k: Ctx, t: Tree, key: int)
    requires t.Node? && Sorted(Inorder(Plug(k, t))) && Splits(k, key) && key < t.elm.key
    ensures Splits(InLeft(k, t.elm, t.color, t.right), key)
  {
    SubtreeSorted(k, t);
    SortedParts(Inorder(t.left), [t.elm], Inorder(t.right));
    assert t.elm in [t.elm];
  }

  lemma GoRight(k: Ctx, t: Tree, key: int)
    requires t.Node? && Sorted(Inorder(Plug(k, t))) && Splits(k, key) && key > t.elm.key
    ensures Splits(InRight(k, t.left, t.elm, t.color), key)
  {
    SubtreeSorted(k, t);
    SortedParts(Inorder(t.left), [t.elm], Inorder(t.right));
    assert t.elm in [t.elm];
  }

  lemma InsertSorted(a: seq<Entry>, e: Entry, b: seq<Entry>)
    requires Sorted(a + b) && AllBelow(a, e.key) && AllAbove(b, e.key)
    ensures Sorted(a + [e] + b)
  {
    var p, q := a + b, a + [e] + b;
    forall i, j | 0 <= i < j < |q| ensures q[i].key < q[j].key {
      assert i < |a| ==> q[i] == a[i] == p[i];
      assert i > |a| ==> q[i] == b[i - |a| - 1] == p[i - 1];
      assert j < |a| ==> q[j] == p[j];
      assert j > |a| ==> q[j] == b[j - |a| - 1] == p[j - 1];
    }
  }

  /** A search that ends in a leaf has missed: no member has the key. */
  lemma MissedKey(k: Ctx, key: int)
    requires Splits(k, key)
    ensures Inorder(Plug(k, Leaf)) == Before(k) + After(k)
    ensures forall e :: e in Elems(Plug(k, Leaf)) ==> e.key != key
  {
    PlugInorder(k, Leaf);
    ElemsInorder(Plug(k, Leaf));
  }

  /** A new member put where its search missed leaves the order sorted. */
  lemma Missed(k: Ctx, elm: Entry, c: Color)
    requires Sorted(Inorder(Plug(k, Leaf))) && Splits(k, elm.key)
    ensures var t := Plug(k, Node(Leaf, elm, c, Leaf));
            Inorder(t) == Before(k) + [elm] + After(k) && Sorted(Inorder(t))
            && Elems(t) == Elems(Plug(k, Leaf)) + {elm}
  {
    MissedKey(k, elm.key);
    PlugInorder(k, Node(Leaf, elm, c, Leaf));
    InsertSorted(Before(k), elm, After(k));
    PlugElems(k, Leaf);
    PlugElems(k, Node(Leaf, elm, c, Leaf));
  }

  lemma MemberAt(k: Ctx, t: Tree)
    requires t.Node?
    ensures t.elm in Elems(Plug(k, t))
  {
    PlugElems(k, t);
  }

  function First(q: seq<Entry>): Entry? {
    if q == [] then null else q[0]
  }

  /** Keys are addresses, so the least member at or above zero is the least member. */
  lemma LeastOfAll(t: Tree, r: Entry?)
    requires Sorted(Inorder(t)) && LeastFrom(t, 0, r)
    ensures r == First(Inorder(t))
  {
    ElemsInorder(t);
    if Inorder(t) != [] {
      var e := Inorder(t)[0];
      assert e in Inorder(t) && 0 <= e.key;
    }
  }

  /** The first entry of an order at or above `key`, as everything before it is below. */
  ghost predicate LeastFrom(t: Tree, key: int, r: Entry?) {
    && (r == null ==> forall e :: e in Elems(t) ==> e.key < key)
    && (r != null ==> r in Elems(t) && key <= r.key && forall e :: e in Elems(t) && key <= e.key ==> r.key <= e.key)
  }

  lemma FirstIsLeast(b: seq<Entry>)
    requires Sorted(b) && b != []
    ensures forall e :: e in b ==> b[0].key <= e.key
  {
  }

  lemma FirstAfterIsLeast(k: Ctx, key: int)
    requires Sorted(Inorder(Plug(k, Leaf))) && Splits(k, key)
    ensures LeastFrom(Plug(k, Leaf), key, First(After(k)))
  {
    MissedKey(k, key);
    ElemsInorder(Plug(k, Leaf));
    var a, b := Before(k), After(k);
    if b != [] {
      SortedParts(a, b, []) by { assert a + b + [] == a + b; }
      FirstIsLeast(b);
      assert b[0] in b;
    }
  }

  lemma HitIsLeast(t: Tree, e: Entry, key: int)
    requires Sorted(Inorder(t)) && e in Elems(t) && e.key == key
    ensures LeastFrom(t, key, e)
  {
  }

  /** The entry after the `i`-th in a tree's order. */
  function Successor(t: Tree, i: nat): Entry? {
    if i + 1 < |Inorder(t)| then Inorder(t)[i + 1] else null
  }

  function Predecessor(t: Tree, i: nat): Entry? {
    if 0 < i <= |Inorder(t)| then Inorder(t)[i - 1] else null
  }

  /** A subtree whose order ends at place `i`: what comes next is above it. */
  lemma SuccessorAbove(k: Ctx, t: Tree, i: nat)
    requires |Before(k)| + |Inorder(t)| == i + 1
    ensures k.InLeft? ==> Successor(Plug(k, t), i) == k.elm
    ensures k.Top? ==> Successor(Plug(k, t), i) == null
    ensures k.InRight? ==> |Before(k.up)| + |Inorder(Node(k.left, k.elm, k.color, t))| == i + 1
  {
    PlugInorder(k, t);
  }

  lemma SuccessorBelow(k: Ctx, t: Tree, i: nat)
    requires |Before(k)| == i + 1 && t.Node? && t.left.Leaf?
    ensures Successor(Plug(k, t), i) == t.elm
  {
    PlugInorder(k, t);
  }

  lemma PredecessorAbove(k: Ctx, t: Tree, i: nat)
    requires |Before(k)| == i
    ensures k.InRight? ==> Predecessor(Plug(k, t), i) == k.elm
    ensures k.Top? ==> Predecessor(Plug(k, t), i) == null
    ensures k.InLeft? ==> |Before(k.up)| == i
  {
    PlugInorder(k, t);
  }

  lemma PredecessorBelow(k: Ctx, t: Tree, i: nat)
    requires |Before(k)| + |Inorder(t)| == i && t.Node? && t.right.Leaf?
    ensures Predecessor(Plug(k, t), i) == t.elm
  {
    PlugInorder(k, t);
  }
}
