/** The records of the four object databases (clients, ports, threads, ring buffers), with
    the links by which trees and queues hold them. */
module Entries {

  datatype Color = Black | Red

  /** One record. `left`, `right`, `parent` and `color` are its red-black tree entry, `next`
      its queue entry; `mark` is the validity mark, `cud` the client it belongs to, and
      `fifo` the head of a client's queue of ports. */
  class Entry {
    const key: nat
    const fifo: Fifo?
    const cud: Entry?
    var left: Entry?
    var right: Entry?
    var parent: Entry?
    var color: Color
    var next: Entry?
    var mark: bool

    constructor (key: nat, fifo: Fifo?, cud: Entry?)
      ensures this.key == key && this.fifo == fifo && this.cud == cud && !mark
    {
      this.key := key;
      this.fifo := fifo;
      this.cud := cud;
      left, right, parent, color, next, mark := null, null, null, Black, null, false;
    }
  }

  function Last(q: seq<Entry>): Entry? {
    if q == [] then null else q[|q| - 1]
  }

  function At(q: seq<Entry>, i: nat): Entry? {
    if i < |q| then q[i] else null
  }

  /** SIMPLEQ of src/queue.h. The C field sqh_last holds the address of the link to be
      written next; here `last` is the entry whose `next` that link is, and null stands for
      the address of `first` itself. */
  class Fifo {
    var first: Entry?
    var last: Entry?
    ghost var q: seq<Entry>

    ghost predicate Valid()
      reads this, q`next
    {
      && first == At(q, 0) && last == Last(q) && (q != [] ==> last.next == null)
      && (forall i {:trigger q[i].next} :: 0 <= i < |q| - 1 ==> q[i].next == q[i + 1])
      && (forall i, j :: 0 <= i < j < |q| ==> q[i] != q[j])
    }

    /** SIMPLEQ_INIT */
    constructor ()
      ensures Valid() && q == []
    {
      first, last, q := null, null, [];
    }

    /** SIMPLEQ_INSERT_TAIL */
    method InsertTail(elm: Entry)
      requires Valid() && elm !in q
      modifies this, elm`next, q`next
      ensures Valid() && q == old(q) + [elm]
    {
      elm.next := null;
      if last == null {
        first := elm;
      } else {
        last.next := elm;
      }
      last := elm;
      q := q + [elm];
    }

    /** SIMPLEQ_REMOVE_HEAD */
    method RemoveHead()
      requires Valid() && q != []
      modifies this
      ensures Valid() && q == old(q)[1..]
    {
      first := first.next;
      if first == null {
        last := null;
      }
      q := q[1..];
    }

    /** SIMPLEQ_REMOVE_AFTER */
    method RemoveAfter(elm: Entry, ghost i: nat)
      requires Valid() && i + 1 < |q| && q[i] == elm
      modifies this, elm`next
      ensures Valid() && q == old(q[..i + 1] + q[i + 2..])
    {
      elm.next := elm.next.next;
      if elm.next == null {
        last := elm;
      }
      ghost var p := q;
      q := p[..i + 1] + p[i + 2..];
    }

    /** cud_fifo_remove: takes one entry out, wherever it is, and says whether it was there. */
    method Remove(pud: Entry) returns (found: bool)
      requires Valid()
      modifies this, q`next
      ensures Valid() && (found <==> pud in old(q)) && !(pud in q)
      ensures !found ==> q == old(q)
      ensures found ==> exists i :: 0 <= i < |old(q)| && old(q)[i] == pud && q == old(q[..i] + q[i + 1..])
    {
      var node := first;
      if node != null {
        if node == pud {
          RemoveHead();
          assert q == old(q[..0] + q[0 + 1..]);
          return true;
        }
        var prev := node;
        node := prev.next;
        ghost var i := 0;
        while node != null
          invariant i < |q| && prev == q[i] && node == At(q, i + 1) && q == old(q) && Valid()
          invariant pud !in q[..i + 1]
          decreases |q| - i
        {
          if node == pud {
            RemoveAfter(prev, i);
            assert q == old(q[..i + 1] + q[i + 1 + 1..]);
            return true;
          }
          prev := node;
          node := prev.next;
          i := i + 1;
        }
      }
      found := false;
    }
  }
}
