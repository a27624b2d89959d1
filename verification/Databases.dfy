/** Clients, ports, threads and ring buffers in their four databases, and their teardown:
    src/client.c, src/port.c, src/rbuf.c, src/thread.c. A record is invalidated when its
    object is closed, and leaves its tree only in the final sweep. */
module Databases {
  import opened Entries
  import opened ObjectDb

  /** The records of `S` that are marked valid. */
  ghost function Live(S: set<Entry>): set<Entry>
    reads S`mark
  {
    set e | e in S && e.mark
  }

  /** The records of `S` that belong to `c`. */
  ghost function Owned(S: set<Entry>, c: Entry): set<Entry>
  {
    set e | e in S && e.cud == c
  }

  lemma LiveMarked(S: set<Entry>, e: Entry)
    ensures e in Live(S) <==> e in S && e.mark
  {
  }

  lemma ToSetSnoc(q: seq<Entry>, i: nat)
    requires i < |q|
    ensures ToSet(q[..i + 1]) == ToSet(q[..i]) + {q[i]}
  {
    assert q[..i + 1] == q[..i] + [q[i]];
  }

  /** One record looked at by the walk. */
  method Invalidate(e: Entry, c: Entry, ghost S: set<Entry>)
    requires e in S
    modifies e`mark
    ensures Live(S) == old(Live(S) - Owned(S, c) * {e})
  {
    if e.mark && e.cud == c {
      e.mark := false;
    }
  }

  /** The body of the walk: look at a record, then go on to the next. */
  method Visit(db: Db, e: Entry, c: Entry, ghost i: nat) returns (next: Entry?)
    requires db.Valid() && i < |db.order| && db.order[i] == e
    modifies db.members`mark
    ensures db.Valid() && next == At(db.order, i + 1)
    ensures Live(db.members) == old(Live(db.members) - Owned(db.members, c) * {e})
  {
    db.Order();
    Invalidate(e, c, db.members);
    next := db.Next(e, i);
  }

  /** The walk of thread_free_all, rbuf_free_all and port_close_all: of the records that are
      valid, those that belong to `c` lose their mark. Nothing leaves the tree. */
  method InvalidateOwned(db: Db, c: Entry)
    requires db.Valid()
    modifies db.members`mark
    ensures db.Valid()
    ensures Live(db.members) == old(Live(db.members) - Owned(db.members, c))
  {
    hide Db.Valid, Live, Owned;
    ghost var q, live, owned := db.order, Live(db.members), Owned(db.members, c);
    ghost var i := 0;
    OwnedWithin(db.members, c);
    var e := db.First();
    while e != null
      invariant db.Valid() && i <= |q| && e == At(q, i)
      invariant Live(db.members) == live - owned * ToSet(q[..i]) && Owned(db.members, c) == owned
      decreases |q| - i
    {
      ToSetSnoc(q, i);
      e := Visit(db, e, c, i);
      i := i + 1;
    }
    db.Order();
    assert q[..i] == q;
  }

  lemma OwnedWithin(S: set<Entry>, c: Entry)
    ensures Owned(S, c) <= S
  {
  }

  /** The queue of the client `c` holds just those of the ports `P` that belong to `c`, each
      of them once. */
  ghost predicate QueueOk(c: Entry, P: set<Entry>)
    reads c.fifo, P`next
  {
    && c.fifo != null && (forall p :: p in c.fifo.q ==> p in P)
    && ToSet(c.fifo.q) == Owned(P, c) && c.fifo.Valid()
  }

  ghost predicate QueuesOk(C: set<Entry>, P: set<Entry>)
    reads (set c | c in C && c.fifo != null :: c.fifo), P`next
  {
    && (forall c :: c in C ==> c.fifo != null && QueueOk(c, P))
    && (forall c, d :: c in C && d in C && c != d ==> c.fifo != d.fifo)
  }

  /** A queue of which no link changes stays as it was when `P` gets a port of another client. */
  lemma OwnedGrown(P: set<Entry>, pud: Entry, d: Entry)
    ensures Owned(P + {pud}, d) == Owned(P, d) + if pud.cud == d then {pud} else {}
  {
  }

  /** No port is on the queues of two clients. */
  lemma OtherQueue(P: set<Entry>, c: Entry, d: Entry)
    requires QueueOk(c, P) && QueueOk(d, P) && c != d
    ensures forall p :: p in d.fifo.q ==> p !in c.fifo.q
  {
    assert forall p :: p in d.fifo.q ==> p in ToSet(d.fifo.q);
    assert forall p :: p in c.fifo.q ==> p in ToSet(c.fifo.q);
  }

  /** cud_fifo_insert: the port goes to the end of its client's queue; the other clients'
      queues stay. */
  method Enqueue(cud: Entry, pud: Entry, ghost C: set<Entry>, ghost P: set<Entry>)
    requires cud in C && pud !in P && pud.cud == cud && QueuesOk(C, P)
    modifies cud.fifo, pud`next, P`next
    ensures QueuesOk(C, P + {pud})
    ensures cud.fifo.q == old(cud.fifo.q) + [pud]
  {
    forall d | d in C && d != cud
      ensures forall p :: p in d.fifo.q ==> p !in cud.fifo.q && p != pud
    {
      OtherQueue(P, cud, d);
    }
    cud.fifo.InsertTail(pud);
    forall d | d in C ensures QueueOk(d, P + {pud}) {
      OwnedGrown(P, pud, d);
      if d != cud {
        assert d.fifo != cud.fifo;
        assert d.fifo.q == old(d.fifo.q);
        assert forall p :: p in d.fifo.q ==> p.next == old(p.next);
        assert d.fifo.Valid();
      }
    }
  }

  lemma OwnedShrunk(P: set<Entry>, pud: Entry, d: Entry)
    ensures Owned(P - {pud}, d) == Owned(P, d) - {pud}
  {
  }

  lemma RemovedSet(q: seq<Entry>, q': seq<Entry>, i: nat)
    requires i < |q| && q' == q[..i] + q[i + 1..] && forall j, k :: 0 <= j < k < |q| ==> q[j] != q[k]
    ensures ToSet(q') == ToSet(q) - {q[i]}
  {
    assert forall j :: 0 <= j < |q'| ==> q'[j] == if j < i then q[j] else q[j + 1];
    assert forall j :: 0 <= j < |q| && j != i ==> q[j] == q'[if j < i then j else j - 1];
  }

  /** cud_fifo_remove: the port leaves its client's queue; the other clients' queues stay. */
  method Dequeue(pud: Entry, ghost cud: Entry, ghost C: set<Entry>, ghost P: set<Entry>)
    requires pud in P && pud.cud == cud && cud in C && QueuesOk(C, P)
    modifies cud.fifo, P`next
    ensures QueuesOk(C, P - {pud})
  {
    assert pud in Owned(P, cud) && pud in ToSet(cud.fifo.q) && pud in cud.fifo.q;
    forall d | d in C && d != cud
      ensures forall p :: p in d.fifo.q ==> p !in cud.fifo.q && p != pud
    {
      OtherQueue(P, cud, d);
    }
    ghost var q := cud.fifo.q;
    var found := pud.cud.fifo.Remove(pud);
    ghost var i :| 0 <= i < |q| && q[i] == pud && cud.fifo.q == q[..i] + q[i + 1..];
    RemovedSet(q, cud.fifo.q, i);
    forall d | d in C ensures QueueOk(d, P - {pud}) {
      OwnedShrunk(P, pud, d);
      if d != cud {
        assert d.fifo != cud.fifo;
        assert d.fifo.q == old(d.fifo.q);
        assert forall p :: p in d.fifo.q ==> p.next == old(p.next);
        assert d.fifo.Valid();
      }
    }
  }

  /** No record of `S` that is marked valid belongs to a client of `C` that is not. */
  ghost predicate MarksOk(S: set<Entry>, C: set<Entry>)
    reads S`mark, C`mark
  {
    forall c :: c in C && !c.mark ==> Live(S) !! Owned(S, c)
  }

  lemma MarksMoreClients(S: set<Entry>, C: set<Entry>, c: Entry)
    requires MarksOk(S, C) && c.mark
    ensures MarksOk(S, C + {c})
  {
  }

  lemma MarksMoreRecords(S: set<Entry>, C: set<Entry>, e: Entry)
    requires MarksOk(S, C) && e.cud != null && e.cud.mark
    ensures MarksOk(S + {e}, C)
  {
    forall c | c in C && !c.mark ensures Live(S + {e}) !! Owned(S + {e}, c) {
      assert Live(S) !! Owned(S, c);
      assert Owned(S + {e}, c) == Owned(S, c) - {e};
      assert Live(S + {e}) - {e} == Live(S) - {e};
    }
  }

  lemma NoneLive(S: set<Entry>, C: set<Entry>)
    requires MarksOk(S, C) && Live(C) == {} && forall e :: e in S ==> e.cud in C
    ensures Live(S) == {}
  {
    forall e | e in S ensures !e.mark {
      assert e.cud !in Live(C);
      assert e in Owned(S, e.cud);
      assert e !in Live(S);
    }
  }

  /** When none of a client's records is valid, the client's own mark can go. */
  method Unmark(c: Entry, ghost C: set<Entry>, ghost P: set<Entry>, ghost T: set<Entry>, ghost R: set<Entry>)
    requires c in C && C !! P !! T !! R && MarksOk(P, C) && MarksOk(T, C) && MarksOk(R, C)
    requires Live(P) !! Owned(P, c) && Live(T) !! Owned(T, c) && Live(R) !! Owned(R, c)
    modifies c`mark
    ensures MarksOk(P, C) && MarksOk(T, C) && MarksOk(R, C)
    ensures Live(C) == old(Live(C)) - {c} && Live(P) == old(Live(P)) && Live(T) == old(Live(T)) && Live(R) == old(Live(R))
  {
    c.mark := false;
  }

  /** Which database a record belongs to. */
  datatype Kind = Client | Port | Thread | Ring

  /** A record given back, and where it came from. */
  datatype Freed = Freed(kind: Kind, record: Entry)

  function Given(k: Kind, q: seq<Entry>): seq<Freed> {
    seq(|q|, i requires 0 <= i < |q| => Freed(k, q[i]))
  }

  lemma GivenFirst(k: Kind, q: seq<Entry>)
    requires q != []
    ensures Given(k, q) == [Freed(k, q[0])] + Given(k, q[1..])
  {
  }

  class Databases {
    const cuds: Db
    const puds: Db
    const tuds: Db
    const ruds: Db
    ghost var freed: seq<Freed>   // the records given back, in order

    /** The databases are four, and no record is in two of them. */
    ghost predicate Apart()
      reads cuds, puds, tuds, ruds
    {
      && cuds != puds && cuds != tuds && cuds != ruds && puds != tuds && puds != ruds && tuds != ruds
      && cuds.tree != puds.tree && cuds.tree != tuds.tree && cuds.tree != ruds.tree
      && puds.tree != tuds.tree && puds.tree != ruds.tree && tuds.tree != ruds.tree
      && cuds.members !! puds.members !! tuds.members !! ruds.members
    }

    /** All the records. */
    ghost function Records(): set<Entry>
      reads cuds, puds, tuds, ruds
    {
      cuds.members + puds.members + tuds.members + ruds.members
    }

    ghost predicate Trees()
      reads cuds, puds, tuds, ruds, cuds.tree, puds.tree, tuds.tree, ruds.tree
      reads Records()`left, Records()`right, Records()`parent, Records()`color
    {
      cuds.Valid() && puds.Valid() && tuds.Valid() && ruds.Valid()
    }

    ghost function Heads(): set<Fifo>
      reads cuds
    {
      set c | c in cuds.members && c.fifo != null :: c.fifo
    }

    /** Each port is once on the queue of its client, and nothing else is there. */
    ghost predicate Queues()
      reads cuds, puds, Heads(), puds.members`next
    {
      QueuesOk(cuds.members, puds.members)
    }

    /** Every port, thread and ring buffer belongs to a client that is in the database. */
    ghost predicate Owners()
      reads cuds, puds, tuds, ruds
    {
      forall e :: e in puds.members + tuds.members + ruds.members ==> e.cud in cuds.members
    }

    ghost predicate Valid()
      reads cuds, puds, tuds, ruds, cuds.tree, puds.tree, tuds.tree, ruds.tree, Heads()
      reads Records()`left, Records()`right, Records()`parent, Records()`color, Records()`next
    {
      Apart() && Trees() && Queues() && Owners()
    }

    /** What every reachable state satisfies. */
    ghost predicate Sound()
      reads cuds, puds, tuds, ruds, cuds.tree, puds.tree, tuds.tree, ruds.tree, Heads()
      reads Records()`left, Records()`right, Records()`parent, Records()`color, Records()`next
      reads Records()`mark
    {
      && Valid() && MarksOk(puds.members, cuds.members)
      && MarksOk(tuds.members, cuds.members) && MarksOk(ruds.members, cuds.members)
    }

    constructor ()
      ensures Sound() && freed == [] && Records() == {} && Heads() == {}
      ensures fresh(cuds) && fresh(puds) && fresh(tuds) && fresh(ruds)
      ensures fresh(cuds.tree) && fresh(puds.tree) && fresh(tuds.tree) && fresh(ruds.tree)
    {
      cuds := new Db();
      puds := new Db();
      tuds := new Db();
      ruds := new Db();
      freed := [];
    }

    /** thread_free_all, rbuf_free_all or port_close_all, within the whole. */
    method CloseOwned(db: Db, c: Entry)
      requires Sound() && (db == puds || db == tuds || db == ruds)
      modifies db.members`mark
      ensures Sound()
      ensures Live(db.members) == old(Live(db.members) - Owned(db.members, c))
    {
      hide Db.Valid;
      hide QueueOk;
      InvalidateOwned(db, c);
    }

    /** client_close: threads, ring buffers and ports of the client lose their marks, then
        the client itself. No other record changes, and none leaves its tree. */
    method ClientClose(c: Entry)
      requires Sound() && c in cuds.members
      modifies Records()`mark
      ensures Sound()
      ensures Live(cuds.members) == old(Live(cuds.members)) - {c}
      ensures Live(puds.members) == old(Live(puds.members) - Owned(puds.members, c))
      ensures Live(tuds.members) == old(Live(tuds.members) - Owned(tuds.members, c))
      ensures Live(ruds.members) == old(Live(ruds.members) - Owned(ruds.members, c))
    {
      hide Db.Valid; hide QueueOk; hide QueuesOk; hide MarksOk; hide Live; hide Owned;
      CloseOwned(tuds, c);
      CloseOwned(ruds, c);
      CloseOwned(puds, c);
      UnmarkClient(c);
    }

    /** The end of client_close, when nothing valid belongs to the client any more. */
    method UnmarkClient(c: Entry)
      requires Sound() && c in cuds.members
      requires Live(puds.members) !! Owned(puds.members, c)
      requires Live(tuds.members) !! Owned(tuds.members, c)
      requires Live(ruds.members) !! Owned(ruds.members, c)
      modifies c`mark
      ensures Sound()
      ensures Live(cuds.members) == old(Live(cuds.members)) - {c}
      ensures Live(puds.members) == old(Live(puds.members))
      ensures Live(tuds.members) == old(Live(tuds.members))
      ensures Live(ruds.members) == old(Live(ruds.members))
    {
      hide Db.Valid; hide QueueOk; hide QueuesOk; hide MarksOk; hide Live; hide Owned;
      Unmark(c, cuds.members, puds.members, tuds.members, ruds.members);
    }

    /** cud_insert */
    method JoinClient(cud: Entry)
      requires Valid() && cud !in Records() && cud.fifo != null && cud.fifo !in Heads()
      requires QueueOk(cud, puds.members) && forall c :: c in cuds.members ==> c.key != cud.key
      modifies cuds, cuds.tree
      modifies (cuds.members + {cud})`left, (cuds.members + {cud})`right
      modifies (cuds.members + {cud})`parent, (cuds.members + {cud})`color
      ensures Valid() && cuds.members == old(cuds.members) + {cud}
    {
      hide Db.Valid; hide QueueOk;
      cuds.Add(cud);
    }

    /** The end of cud_new: the client joins the database and is marked valid. */
    method Register(cud: Entry)
      requires Sound() && cud !in Records() && cud.fifo != null && cud.fifo !in Heads()
      requires QueueOk(cud, puds.members) && forall c :: c in cuds.members ==> c.key != cud.key
      modifies cuds, cuds.tree, cud`mark
      modifies (cuds.members + {cud})`left, (cuds.members + {cud})`right
      modifies (cuds.members + {cud})`parent, (cuds.members + {cud})`color
      ensures Sound() && cuds.members == old(cuds.members) + {cud} && cud.mark
    {
      hide Db.Valid; hide QueueOk; hide QueuesOk; hide MarksOk; hide Trees;
      ghost var C := cuds.members;
      JoinClient(cud);
      cud.mark := true;
      MarksMoreClients(puds.members, C, cud);
      MarksMoreClients(tuds.members, C, cud);
      MarksMoreClients(ruds.members, C, cud);
    }

    /** cud_new at the address `key`, or null if a client is registered under it. */
    method NewClient(key: nat) returns (cud: Entry?)
      requires Sound()
      modifies cuds, cuds.tree
      modifies cuds.members`left, cuds.members`right, cuds.members`parent, cuds.members`color
      ensures Sound()
      ensures cud == null <==> exists c :: c in old(cuds.members) && c.key == key
      ensures cud == null ==> cuds.members == old(cuds.members)
      ensures cud != null ==> fresh(cud) && cud.key == key && cud.mark && cuds.members == old(cuds.members) + {cud}
      ensures cud != null ==> cud.fifo != null && fresh(cud.fifo)
    {
      hide Db.Valid; hide QueueOk; hide MarksOk;
      cud := cuds.Search(key);
      if cud == null {
        var fifo := new Fifo();
        cud := new Entry(key, fifo, null);
        NoPortsYet(cud);
        Register(cud);
      } else {
        cud := null;
      }
    }

    /** A record that is not in the client database owns no port. */
    lemma NoPortsYet(cud: Entry)
      requires Owners() && cud !in cuds.members && cud.fifo != null && cud.fifo.Valid() && cud.fifo.q == []
      ensures QueueOk(cud, puds.members)
    {
    }

    /** pud_insert and the mark, for a port that is on its client's queue already. */
    method JoinPort(pud: Entry)
      requires Apart() && Trees() && Owners() && QueuesOk(cuds.members, puds.members + {pud})
      requires pud !in Records() && pud.cud in cuds.members && forall p :: p in puds.members ==> p.key != pud.key
      modifies puds, puds.tree, pud`mark
      modifies (puds.members + {pud})`left, (puds.members + {pud})`right
      modifies (puds.members + {pud})`parent, (puds.members + {pud})`color
      ensures Valid() && puds.members == old(puds.members) + {pud} && pud.mark
    {
      hide Db.Valid; hide QueuesOk;
      puds.Add(pud);
      pud.mark := true;
    }

    /** The end of pud_new: the port joins its client's queue and the database, and is
        marked valid. */
    method RegisterPort(pud: Entry, cud: Entry)
      requires Valid() && pud !in Records() && pud.cud == cud && cud in cuds.members
      requires forall p :: p in puds.members ==> p.key != pud.key
      modifies puds, puds.tree, cud.fifo, pud`mark, (puds.members + {pud})`next
      modifies (puds.members + {pud})`left, (puds.members + {pud})`right
      modifies (puds.members + {pud})`parent, (puds.members + {pud})`color
      ensures Valid() && puds.members == old(puds.members) + {pud} && pud.mark
      ensures cud.fifo.q == old(cud.fifo.q) + [pud]
    {
      hide Db.Valid; hide QueueOk;
      ghost var fifo: object? := cud.fifo;
      Enqueue(cud, pud, cuds.members, puds.members);
      assert fifo != puds && fifo != puds.tree;
      JoinPort(pud);
    }

    /** The same within the whole. */
    method EnterPort(pud: Entry, cud: Entry)
      requires Sound() && pud !in Records() && pud.cud == cud && cud in cuds.members && cud.mark
      requires forall p :: p in puds.members ==> p.key != pud.key
      modifies puds, puds.tree, cud.fifo, pud`mark, (puds.members + {pud})`next
      modifies (puds.members + {pud})`left, (puds.members + {pud})`right
      modifies (puds.members + {pud})`parent, (puds.members + {pud})`color
      ensures Sound() && puds.members == old(puds.members) + {pud} && pud.mark
      ensures cud.fifo.q == old(cud.fifo.q) + [pud]
    {
      hide Db.Valid, QueueOk, QueuesOk, MarksOk, Trees;
      ghost var P := puds.members;
      RegisterPort(pud, cud);
      MarksMoreRecords(P, cuds.members, pud);
    }

    /** pud_new for the valid client `cud`, or null if the address `key` is registered. */
    method NewPort(cud: Entry, key: nat) returns (pud: Entry?)
      requires Sound() && cud in cuds.members && cud.mark
      modifies puds, puds.tree, cud.fifo, puds.members`next
      modifies puds.members`left, puds.members`right, puds.members`parent, puds.members`color
      ensures Sound()
      ensures pud == null <==> exists p :: p in old(puds.members) && p.key == key
      ensures pud == null ==> puds.members == old(puds.members)
      ensures pud != null ==> fresh(pud) && pud.key == key && pud.cud == cud && pud.mark
                              && puds.members == old(puds.members) + {pud}
                              && cud.fifo.q == old(cud.fifo.q) + [pud]
    {
      hide Db.Valid, QueueOk, MarksOk;
      pud := puds.Search(key);
      if pud == null {
        pud := new Entry(key, null, cud);
        EnterPort(pud, cud);
      } else {
        pud := null;
      }
    }

    /** tud_new or rud_new with the assignment of the owner that follows it. */
    method NewOwned(db: Db, cud: Entry, key: nat) returns (e: Entry?)
      requires Sound() && cud in cuds.members && cud.mark && (db == tuds || db == ruds)
      modifies db, db.tree, db.members`left, db.members`right, db.members`parent, db.members`color
      ensures Sound()
      ensures e == null <==> exists x :: x in old(db.members) && x.key == key
      ensures e == null ==> db.members == old(db.members)
      ensures e != null ==> fresh(e) && e.key == key && e.cud == cud && e.mark && db.members == old(db.members) + {e}
    {
      hide Db.Valid; hide QueueOk; hide MarksOk;
      e := db.Search(key);
      if e == null {
        e := new Entry(key, null, cud);
        RegisterOwned(db, e);
      } else {
        e := null;
      }
    }

    /** tud_insert or rud_insert. */
    method JoinOwned(db: Db, e: Entry)
      requires Valid() && (db == tuds || db == ruds) && e !in Records() && e.cud in cuds.members
      requires forall x :: x in db.members ==> x.key != e.key
      modifies db, db.tree
      modifies (db.members + {e})`left, (db.members + {e})`right
      modifies (db.members + {e})`parent, (db.members + {e})`color
      ensures Valid() && db.members == old(db.members) + {e}
    {
      hide Db.Valid; hide QueueOk;
      db.Add(e);
    }

    /** The end of tud_new and rud_new. */
    method RegisterOwned(db: Db, e: Entry)
      requires Sound() && (db == tuds || db == ruds) && e !in Records() && e.cud in cuds.members && e.cud.mark
      requires forall x :: x in db.members ==> x.key != e.key
      modifies db, db.tree, e`mark
      modifies (db.members + {e})`left, (db.members + {e})`right
      modifies (db.members + {e})`parent, (db.members + {e})`color
      ensures Sound() && db.members == old(db.members) + {e} && e.mark
    {
      hide Db.Valid; hide QueueOk; hide QueuesOk; hide MarksOk; hide Trees;
      ghost var M := db.members;
      JoinOwned(db, e);
      e.mark := true;
      MarksMoreRecords(M, cuds.members, e);
    }

    /** xud_check: the valid record under a key, or an error. */
    method Check(db: Db, key: nat) returns (e: Entry?)
      requires db.Valid()
      ensures e != null ==> e in db.members && e.key == key && e.mark
      ensures e == null ==> forall x :: x in db.members && x.key == key ==> !x.mark
    {
      db.Order();
      e := db.Search(key);
      if e != null {
        OnlyWithKey(db.order, e);
        if !e.mark {
          e := null;
        }
      }
    }

    /** port_close: the port's mark goes, its record stays where it is. */
    method PortClose(pud: Entry)
      requires Sound() && pud in puds.members
      modifies pud`mark
      ensures Sound() && Live(puds.members) == old(Live(puds.members)) - {pud}
    {
      hide Db.Valid; hide QueueOk;
      pud.mark := false;
    }

    function KindOf(db: Db): Kind
      requires db == tuds || db == ruds
    {
      if db == tuds then Thread else Ring
    }

    /** tud_free or rud_free of the first record. */
    method FreeOwned(db: Db, e: Entry)
      requires Valid() && (db == tuds || db == ruds) && db.order != [] && e == db.order[0] && e in db.members
      modifies this, db, db.tree, db.members`left, db.members`right, db.members`parent, db.members`color
      ensures Valid() && db.members == old(db.members) - {e} && db.order == old(db.order)[1..]
      ensures freed == old(freed) + [Freed(KindOf(db), e)]
    {
      hide Db.Valid; hide QueueOk;
      db.Drop(e);
      freed := freed + [Freed(KindOf(db), e)];
    }

    /** The first part of pud_free: the port leaves the tree, its client's queue still has it. */
    method DropPort(e: Entry)
      requires Valid() && puds.order != [] && e == puds.order[0] && e in puds.members
      modifies puds, puds.tree, puds.members`left, puds.members`right, puds.members`parent, puds.members`color
      ensures Apart() && Trees() && Owners() && QueuesOk(cuds.members, old(puds.members)) && e.cud in cuds.members
      ensures puds.members == old(puds.members) - {e} && puds.order == old(puds.order)[1..]
    {
      hide Db.Valid; hide QueueOk; hide QueuesOk;
      puds.Drop(e);
    }

    /** The second part: the queue loses it, too. */
    method Detach(e: Entry, ghost P: set<Entry>)
      requires Apart() && Trees() && Owners() && QueuesOk(cuds.members, P)
      requires e in P && puds.members == P - {e} && e.cud != null && e.cud in cuds.members
      modifies e.cud.fifo, P`next
      ensures Valid()
    {
      hide Db.Valid, QueueOk, QueuesOk;
      Dequeue(e, e.cud, cuds.members, P);
    }

    /** pud_free of the first port: out of the tree, off its client's queue. */
    method FreePort(e: Entry)
      requires Valid() && puds.order != [] && e == puds.order[0] && e in puds.members
      modifies this, puds, puds.tree, Heads(), puds.members`next
      modifies puds.members`left, puds.members`right, puds.members`parent, puds.members`color
      ensures Valid() && puds.members == old(puds.members) - {e} && puds.order == old(puds.order)[1..]
      ensures freed == old(freed) + [Freed(Port, e)]
    {
      hide Db.Valid, QueueOk, QueuesOk, Trees, Owners;
      ghost var P := puds.members;
      DropPort(e);
      Detach(e, P);
      freed := freed + [Freed(Port, e)];
    }

    /** cud_free of the first client, when nothing belongs to any client. */
    method FreeClient(e: Entry)
      requires Valid() && puds.members == tuds.members == ruds.members == {}
      requires cuds.order != [] && e == cuds.order[0] && e in cuds.members
      modifies this, cuds, cuds.tree, cuds.members`left, cuds.members`right, cuds.members`parent, cuds.members`color
      ensures Valid() && cuds.members == old(cuds.members) - {e} && cuds.order == old(cuds.order)[1..]
      ensures freed == old(freed) + [Freed(Client, e)]
    {
      hide Db.Valid; hide QueueOk;
      cuds.Drop(e);
      freed := freed + [Freed(Client, e)];
    }

    /** One round of a sweep over threads or ring buffers. */
    method StepOwned(db: Db, e: Entry) returns (next: Entry?)
      requires Valid() && (db == tuds || db == ruds) && At(db.order, 0) == e
      modifies this, db, db.tree, db.members`left, db.members`right, db.members`parent, db.members`color
      ensures Valid() && db.members <= old(db.members) && next == At(db.order, 0)
      ensures |db.order| < |old(db.order)| && freed + Given(KindOf(db), db.order) == old(freed + Given(KindOf(db), db.order))
    {
      hide Db.Valid; hide QueueOk; hide QueuesOk;
      db.Order();
      assert e in ToSet(db.order);
      GivenFirst(KindOf(db), db.order);
      FreeOwned(db, e);
      next := db.First();
    }

    /** tud_free_all or rud_free_all: every record once, by increasing key. */
    method SweepOwned(db: Db)
      requires Valid() && (db == tuds || db == ruds)
      modifies this, db, db.tree, db.members`left, db.members`right, db.members`parent, db.members`color
      ensures Valid() && db.members == {}
      ensures freed == old(freed) + Given(KindOf(db), old(db.order))
    {
      hide Db.Valid; hide QueueOk; hide QueuesOk;
      ghost var M, q := db.members, db.order;
      var e := db.First();
      while e != null
        invariant Valid() && db.members <= M && e == At(db.order, 0)
        invariant freed + Given(KindOf(db), db.order) == old(freed) + Given(KindOf(db), q)
        decreases |db.order|
      {
        e := StepOwned(db, e);
      }
      db.Order();
    }

    /** One round of the sweep over the ports. */
    method StepPort(e: Entry) returns (next: Entry?)
      requires Valid() && At(puds.order, 0) == e
      modifies this, puds, puds.tree, Heads(), puds.members`next
      modifies puds.members`left, puds.members`right, puds.members`parent, puds.members`color
      ensures Valid() && puds.members <= old(puds.members) && next == At(puds.order, 0)
      ensures |puds.order| < |old(puds.order)| && freed + Given(Port, puds.order) == old(freed + Given(Port, puds.order))
    {
      hide Db.Valid; hide QueueOk; hide QueuesOk;
      puds.Order();
      assert e in ToSet(puds.order);
      GivenFirst(Port, puds.order);
      FreePort(e);
      next := puds.First();
    }

    /** pud_free_all */
    method SweepPorts()
      requires Valid()
      modifies this, puds, puds.tree, Heads(), puds.members`next
      modifies puds.members`left, puds.members`right, puds.members`parent, puds.members`color
      ensures Valid() && puds.members == {}
      ensures freed == old(freed) + Given(Port, old(puds.order))
    {
      hide Db.Valid; hide QueueOk; hide QueuesOk; hide Queues;
      ghost var M, q := puds.members, puds.order;
      var e := puds.First();
      while e != null
        invariant Valid() && puds.members <= M && e == At(puds.order, 0)
        invariant freed + Given(Port, puds.order) == old(freed) + Given(Port, q)
        decreases |puds.order|
      {
        e := StepPort(e);
      }
      puds.Order();
    }

    /** One round of the sweep over the clients. */
    method StepClient(e: Entry) returns (next: Entry?)
      requires Valid() && At(cuds.order, 0) == e && puds.members == tuds.members == ruds.members == {}
      modifies this, cuds, cuds.tree, cuds.members`left, cuds.members`right, cuds.members`parent, cuds.members`color
      ensures Valid() && cuds.members <= old(cuds.members) && next == At(cuds.order, 0)
      ensures |cuds.order| < |old(cuds.order)| && freed + Given(Client, cuds.order) == old(freed + Given(Client, cuds.order))
    {
      hide Db.Valid; hide QueueOk; hide QueuesOk;
      cuds.Order();
      assert e in ToSet(cuds.order);
      GivenFirst(Client, cuds.order);
      FreeClient(e);
      next := cuds.First();
    }

    /** cud_free_all, after the other three. */
    method SweepClients()
      requires Valid() && puds.members == tuds.members == ruds.members == {}
      modifies this, cuds, cuds.tree, cuds.members`left, cuds.members`right, cuds.members`parent, cuds.members`color
      ensures Valid() && cuds.members == {}
      ensures freed == old(freed) + Given(Client, old(cuds.order))
    {
      hide Db.Valid; hide QueueOk; hide QueuesOk;
      ghost var M, q := cuds.members, cuds.order;
      var e := cuds.First();
      while e != null
        invariant Valid() && cuds.members <= M && e == At(cuds.order, 0)
        invariant freed + Given(Client, cuds.order) == old(freed) + Given(Client, q)
        decreases |cuds.order|
      {
        e := StepClient(e);
      }
      cuds.Order();
    }

    /** One round of the first loop of client_close_all. */
    method StepClose(e: Entry, ghost i: nat) returns (next: Entry?)
      requires Sound() && i < |cuds.order| && cuds.order[i] == e
      modifies Records()`mark
      ensures Sound() && next == At(cuds.order, i + 1)
      ensures Live(cuds.members) <= old(Live(cuds.members)) - {e}
    {
      hide Db.Valid, QueueOk, QueuesOk, MarksOk, Live, Owned;
      cuds.Order();
      assert e in ToSet(cuds.order);
      LiveMarked(cuds.members, e);
      if e.mark {
        ClientClose(e);
      }
      next := cuds.Next(e, i);
    }

    lemma AllInvalid()
      requires Sound() && Live(cuds.members) == {}
      ensures Live(Records()) == {}
    {
      NoneLive(puds.members, cuds.members);
      NoneLive(tuds.members, cuds.members);
      NoneLive(ruds.members, cuds.members);
      assert Live(Records()) == Live(cuds.members) + Live(puds.members) + Live(tuds.members) + Live(ruds.members);
    }

    /** The first loop of client_close_all: every client that is still valid is closed, and
        then no record at all is valid. */
    method CloseValid()
      requires Sound()
      modifies Records()`mark
      ensures Sound() && Live(Records()) == {}
    {
      hide Db.Valid; hide QueueOk; hide QueuesOk; hide MarksOk; hide Owners; hide Live;
      ghost var q, i := cuds.order, 0;
      var e := cuds.First();
      LiveMembers(cuds.members);
      while e != null
        invariant Sound() && i <= |q| && e == At(q, i)
        invariant Live(cuds.members) <= cuds.members - ToSet(q[..i])
        decreases |q| - i
      {
        ToSetSnoc(q, i);
        e := StepClose(e, i);
        i := i + 1;
      }
      cuds.Order();
      assert q[..i] == q;
      AllInvalid();
    }

    lemma LiveMembers(S: set<Entry>)
      ensures Live(S) <= S
    {
    }

    /** client_close_all: every client is closed, then all the records are given back, each
        once: threads, ring buffers, ports, and the clients last. */
    method CloseAll()
      requires Sound()
      modifies this, cuds, puds, tuds, ruds, cuds.tree, puds.tree, tuds.tree, ruds.tree, Heads()
      modifies Records()`left, Records()`right, Records()`parent, Records()`color, Records()`next, Records()`mark
      ensures Sound() && Records() == {} && Live(old(Records())) == {}
      ensures freed == old(freed) + Given(Thread, old(tuds.order)) + Given(Ring, old(ruds.order))
                       + Given(Port, old(puds.order)) + Given(Client, old(cuds.order))
    {
      hide Db.Valid; hide QueueOk; hide QueuesOk; hide MarksOk; hide Trees; hide Owners; hide Live; hide Queues;
      ghost var D := Records();
      CloseValid();
      SweepAll();
      NoClients(puds.members);
      NoClients(tuds.members);
      NoClients(ruds.members);
      assert Live(D) == {};
    }

    /** The second part of client_close_all. */
    method SweepAll()
      requires Valid()
      modifies this, cuds, puds, tuds, ruds, cuds.tree, puds.tree, tuds.tree, ruds.tree, Heads()
      modifies Records()`left, Records()`right, Records()`parent, Records()`color, Records()`next
      ensures Valid() && cuds.members == puds.members == tuds.members == ruds.members == {}
      ensures freed == old(freed) + Given(Thread, old(tuds.order)) + Given(Ring, old(ruds.order))
                       + Given(Port, old(puds.order)) + Given(Client, old(cuds.order))
    {
      hide Db.Valid; hide QueueOk; hide QueuesOk; hide Trees; hide Owners; hide Queues;
      SweepOwned(tuds);
      SweepOwned(ruds);
      SweepPorts();
      SweepClients();
    }

    lemma NoClients(S: set<Entry>)
      ensures MarksOk(S, {})
    {
    }

    /** What client_close_all gives back, it gives back once, and no client before a port, a
        thread or a ring buffer. */
    lemma FreedOnce(given: seq<Entry>)
      requires Valid() && given == tuds.order + ruds.order + puds.order + cuds.order
      ensures ToSet(given) == Records() && NoRepeats(given)
      ensures forall i, j :: 0 <= i < j < |given| && given[i] in cuds.members ==> given[j] in cuds.members
    {
      hide Db.Valid; hide Queues; hide Owners; hide QueueOk;
      Once(tuds);
      Once(ruds);
      Once(puds);
      Once(cuds);
      Joined(tuds.order, ruds.order);
      Joined(tuds.order + ruds.order, puds.order);
      var owned := tuds.order + ruds.order + puds.order;
      Joined(owned, cuds.order);
      assert forall i :: 0 <= i < |owned| ==> owned[i] in ToSet(owned);
      assert forall i :: 0 <= i < |cuds.order| ==> cuds.order[i] in ToSet(cuds.order);
    }
  }

  ghost predicate NoRepeats(q: seq<Entry>) {
    forall i, j :: 0 <= i < j < |q| ==> q[i] != q[j]
  }

  lemma Once(db: Db)
    requires db.Valid()
    ensures ToSet(db.order) == db.members && NoRepeats(db.order)
  {
    db.Order();
  }

  /** Two lists without repetition and without a common record make one without repetition. */
  lemma Joined(p: seq<Entry>, q: seq<Entry>)
    requires NoRepeats(p) && NoRepeats(q) && ToSet(p) !! ToSet(q)
    ensures ToSet(p + q) == ToSet(p) + ToSet(q) && NoRepeats(p + q)
  {
    assert forall e :: e in ToSet(q) ==> e in p + q;
    assert forall i :: 0 <= i < |p| ==> p[i] in ToSet(p);
    assert forall i :: 0 <= i < |q| ==> q[i] in ToSet(q);
  }
}
