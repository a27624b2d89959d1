/** One object database: a red-black tree of records and the functions that src/cud.c,
    src/pud.c, src/tud.c and src/rud.c put around it. */
module ObjectDb {
  import opened Entries
  import RbShape
  import RbSearch
  import RbTree

  function ToSet(q: seq<Entry>): set<Entry> {
    set e | e in q
  }

  lemma OnlyWithKey(q: seq<Entry>, e: Entry)
    requires RbShape.Sorted(q) && e in q
    ensures forall x :: x in q && x.key == e.key ==> x == e
  {
  }

  lemma NoneIn(q: seq<Entry>)
    ensures ToSet(q) == {} ==> q == []
  {
    if q != [] {
      assert q[0] in ToSet(q);
    }
  }

  /** An increasing order is determined by what is in it. */
  lemma {:induction false} SortedUnique(p: seq<Entry>, q: seq<Entry>)
    requires RbShape.Sorted(p) && RbShape.Sorted(q) && ToSet(p) == ToSet(q)
    ensures p == q
    decreases |p|
  {
    NoneIn(q);
    if p == [] {
    } else {
      assert p[0] in ToSet(q) && q != [];
      assert q[0] in ToSet(p);
      assert p[0] == q[0];
      assert ToSet(p[1..]) == ToSet(p) - {p[0]};
      assert ToSet(q[1..]) == ToSet(q) - {q[0]};
      SortedUnique(p[1..], q[1..]);
      assert p == [p[0]] + p[1..] && q == [q[0]] + q[1..];
    }
  }

  lemma FirstDropped(q: seq<Entry>, q': seq<Entry>, e: Entry)
    requires RbShape.Sorted(q) && RbShape.Sorted(q') && ToSet(q') == ToSet(q) - {e}
    ensures q != [] && e == q[0] ==> q' == q[1..]
  {
    if q != [] && e == q[0] {
      assert ToSet(q[1..]) == ToSet(q) - {e};
      SortedUnique(q', q[1..]);
    }
  }

  class Db {
    const tree: RbTree.RbTree
    ghost var members: set<Entry>
    ghost var order: seq<Entry>     // the members, by increasing key

    ghost predicate Valid()
      reads this, tree, members`left, members`right, members`parent, members`color
    {
      members == RbShape.Elems(tree.t) && order == RbShape.Inorder(tree.t) && tree.Valid()
    }

    constructor ()
      ensures Valid() && members == {} && order == [] && fresh(tree)
    {
      tree := new RbTree.RbTree();
      members, order := {}, [];
    }

    lemma Order()
      requires Valid()
      ensures ToSet(order) == members
      ensures RbShape.Sorted(order)
    {
      RbShape.ElemsInorder(tree.t);
    }

    /** xud_search */
    method Search(key: nat) returns (r: Entry?)
      requires Valid()
      ensures Valid()
      ensures r != null ==> r in members && r.key == key
      ensures r == null ==> forall e :: e in members ==> e.key != key
    {
      ghost var M, steps := members, 0;
      r, steps := tree.Find(key);
      assert tree.Spells(M);
    }

    /** xud_first(0) */
    method First() returns (e: Entry?)
      requires Valid()
      ensures Valid() && e == At(order, 0)
    {
      ghost var M, steps := members, 0;
      e, steps := tree.NFind(0);
      RbSearch.LeastOfAll(tree.t, e);
      assert tree.Spells(M);
    }

    /** xud_next */
    method Next(e: Entry, ghost i: nat) returns (r: Entry?)
      requires Valid() && i < |order| && order[i] == e
      ensures Valid() && r == At(order, i + 1)
    {
      ghost var M := members;
      r := tree.Next(e, i);
      assert tree.Spells(M);
    }

    /** The insertion in xud_new: nobody else has the key. */
    method Add(e: Entry)
      requires Valid() && forall x :: x in members ==> x.key != e.key
      modifies this, tree
      modifies (members + {e})`left, (members + {e})`right, (members + {e})`parent, (members + {e})`color
      ensures Valid() && members == old(members) + {e}
    {
      var r := tree.Insert(e);
      members := RbShape.Elems(tree.t);
      order := RbShape.Inorder(tree.t);
    }

    /** The removal in xud_free: the record found under the key is the record itself. */
    method Drop(e: Entry)
      requires Valid() && e in members
      modifies this, tree, members`left, members`right, members`parent, members`color
      ensures Valid() && members == old(members) - {e}
      ensures old(order) != [] && e == old(order)[0] ==> order == old(order)[1..]
    {
      ghost var q := order;
      Order();
      OnlyWithKey(order, e);
      var r := Search(e.key);
      if r == e {
        var gone := tree.Remove(e);
      }
      members := RbShape.Elems(tree.t);
      order := RbShape.Inorder(tree.t);
      Order();
      FirstDropped(q, order, e);
    }
  }
}
