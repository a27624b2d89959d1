/** Whole lives of the four databases: any sequence of registrations and closures, then
    client_close_all, against what a script can see of them. */
module DatabaseRuns {
  import opened Entries
  import RbShape
  import opened ObjectDb
  import opened DatabaseModel
  import D = Databases

  /** All that an operation may write. */
  ghost function Footprint(d: D.Databases): set<object>
    reads d.cuds, d.puds, d.tuds, d.ruds
  {
    {d.cuds, d.puds, d.tuds, d.ruds, d.cuds.tree, d.puds.tree, d.tuds.tree, d.ruds.tree} + d.Records() + d.Heads()
  }

  function Keys(S: set<Entry>): set<nat> {
    set e | e in S :: e.key
  }

  /** The clients `S`, of which those in `L` are valid, are those of `m`. */
  ghost predicate ShowsClients(S: set<Entry>, L: set<Entry>, m: map<nat, bool>) {
    m.Keys == Keys(S) && forall e :: e in S ==> m[e.key] == (e in L)
  }

  /** The records `S`, of which those in `L` are valid, are with their clients those of `m`. */
  ghost predicate ShowsOwned(S: set<Entry>, L: set<Entry>, m: map<nat, Rec>) {
    m.Keys == Keys(S) && forall e :: e in S ==> e.cud != null && m[e.key] == Rec(e.cud.key, e in L)
  }

  /** The databases are in the state `a`. */
  ghost predicate Shows(d: D.Databases, a: Abs)
    reads d.cuds, d.puds, d.tuds, d.ruds, d.Records()`mark
  {
    var (c, p, t, r) := Valids(d);
    && ShowsClients(d.cuds.members, c, a.clients) && ShowsOwned(d.puds.members, p, a.ports)
    && ShowsOwned(d.tuds.members, t, a.threads) && ShowsOwned(d.ruds.members, r, a.rings)
  }

  /** There is only one such state. */
  lemma ShowsOne(d: D.Databases, a: Abs, b: Abs)
    requires Shows(d, a) && Shows(d, b)
    ensures a == b
  {
    assert a.clients == b.clients;
    assert a.ports == b.ports;
    assert a.threads == b.threads;
    assert a.rings == b.rings;
  }

  /** No two records have the same key. */
  ghost predicate Unique(S: set<Entry>) {
    forall e, f :: e in S && f in S && e.key == f.key ==> e == f
  }

  lemma UniqueKeys(db: Db)
    requires db.Valid()
    ensures Unique(db.members)
  {
    db.Order();
    forall e, f | e in db.members && f in db.members && e.key == f.key ensures e == f {
      assert e in ToSet(db.order) && f in ToSet(db.order);
      OnlyWithKey(db.order, e);
    }
  }

  lemma OpenShows(S: set<Entry>, L: set<Entry>, m: map<nat, bool>, e: Entry)
    requires ShowsClients(S, L, m) && e.key !in m
    ensures ShowsClients(S + {e}, L + {e}, m[e.key := true])
  {
  }

  lemma AddedShows(S: set<Entry>, L: set<Entry>, m: map<nat, Rec>, e: Entry)
    requires ShowsOwned(S, L, m) && e.cud != null && e.key !in m
    ensures ShowsOwned(S + {e}, L + {e}, Added(m, e.cud.key, e.key))
  {
  }

  /** The effect on the marks of a closure of one client, seen by key. */
  lemma ClosedShows(S: set<Entry>, L: set<Entry>, C: set<Entry>, c: Entry, m: map<nat, Rec>)
    requires ShowsOwned(S, L, m) && c in C && Unique(C) && forall e :: e in S ==> e.cud in C
    ensures ShowsOwned(S, L - D.Owned(S, c), Closed(m, c.key))
  {
    forall e | e in S ensures Closed(m, c.key)[e.key] == Rec(e.cud.key, e in L - D.Owned(S, c)) {
      assert e.cud == c <==> e in D.Owned(S, c);
    }
  }

  lemma ClientClosedShows(C: set<Entry>, L: set<Entry>, c: Entry, m: map<nat, bool>)
    requires ShowsClients(C, L, m) && c in C && Unique(C)
    ensures ShowsClients(C, L - {c}, m[c.key := false])
  {
  }

  lemma PortClosedShows(S: set<Entry>, L: set<Entry>, pud: Entry, m: map<nat, Rec>)
    requires ShowsOwned(S, L, m) && pud in S && Unique(S)
    ensures ShowsOwned(S, L - {pud}, ClosedOne(m, pud.key))
  {
  }

  /** A key that names no valid record: closing it changes nothing. */
  lemma StillClosed(S: set<Entry>, L: set<Entry>, m: map<nat, Rec>, key: nat)
    requires ShowsOwned(S, L, m) && forall e :: e in S && e.key == key ==> e !in L
    ensures ClosedOne(m, key) == m
  {
  }

  // ---- the operations ------------------------------------------------------------------------

  /** The sets of valid records, of clients, ports, threads and rings. */
  ghost function Valids(d: D.Databases): (set<Entry>, set<Entry>, set<Entry>, set<Entry>)
    reads d.cuds, d.puds, d.tuds, d.ruds, d.Records()`mark
  {
    (D.Live(d.cuds.members), D.Live(d.puds.members), D.Live(d.tuds.members), D.Live(d.ruds.members))
  }

  lemma AnyWithKey(S: set<Entry>, key: nat)
    ensures key in Keys(S) <==> exists e :: e in S && e.key == key
  {
  }

  /** The client under a key, as cud_check finds it. */
  method Client(d: D.Databases, key: nat, ghost a: Abs) returns (cud: Entry?)
    requires d.Sound() && Shows(d, a)
    ensures cud == null <==> !IsOpen(a, key)
    ensures cud != null ==> cud in d.cuds.members && cud.key == key && cud.mark
  {
    UniqueKeys(d.cuds);
    AnyWithKey(d.cuds.members, key);
    cud := d.Check(d.cuds, key);
  }

  method OpenClient(d: D.Databases, key: nat, ghost a: Abs)
    requires d.Sound() && Shows(d, a)
    modifies d.cuds, d.cuds.tree
    modifies d.cuds.members`left, d.cuds.members`right, d.cuds.members`parent, d.cuds.members`color
    ensures d.Sound() && Shows(d, Apply(a, Op.OpenClient(key)))
    ensures forall c :: c in d.cuds.members ==> c in old(d.cuds.members) || (fresh(c) && c.fifo != null && fresh(c.fifo))
  {
    hide Db.Valid, D.QueueOk, D.QueuesOk, D.MarksOk, ShowsOwned;
    ghost var C, L := d.cuds.members, D.Live(d.cuds.members);
    AnyWithKey(C, key);
    var cud := d.NewClient(key);
    if cud != null {
      OpenShows(C, L, a.clients, cud);
      assert D.Live(d.cuds.members) == L + {cud};
    }
  }

  method NewPort(d: D.Databases, client: nat, key: nat, ghost a: Abs)
    requires d.Sound() && Shows(d, a)
    modifies d.puds, d.puds.tree, d.Heads(), d.puds.members`next
    modifies d.puds.members`left, d.puds.members`right, d.puds.members`parent, d.puds.members`color
    ensures d.Sound() && Shows(d, Apply(a, Op.NewPort(client, key)))
    ensures fresh(d.puds.members - old(d.puds.members))
  {
    hide Db.Valid, D.QueueOk, D.QueuesOk, D.MarksOk, ShowsClients, ShowsOwned, Added;
    var cud := Client(d, client, a);
    if cud != null {
      PortOf(d, cud, key, a);
    }
  }

  /** pud_new, with what it does to the marks of all databases. */
  method AddPort(d: D.Databases, cud: Entry, key: nat) returns (pud: Entry?)
    requires d.Sound() && cud in d.cuds.members && cud.mark
    modifies d.puds, d.puds.tree, d.Heads(), d.puds.members`next
    modifies d.puds.members`left, d.puds.members`right, d.puds.members`parent, d.puds.members`color
    ensures d.Sound() && (pud == null <==> key in Keys(old(d.puds.members)))
    ensures d.cuds.members == old(d.cuds.members)
    ensures d.tuds.members == old(d.tuds.members) && d.ruds.members == old(d.ruds.members)
    ensures pud == null ==> d.puds.members == old(d.puds.members) && Valids(d) == old(Valids(d))
    ensures pud != null ==> fresh(pud) && pud.key == key && pud.cud == cud
    ensures pud != null ==> d.puds.members == old(d.puds.members) + {pud}
    ensures pud != null ==> Valids(d) == var (c, p, t, r) := old(Valids(d)); (c, p + {pud}, t, r)
  {
    hide Db.Valid, D.QueueOk, D.QueuesOk, D.MarksOk;
    AnyWithKey(d.puds.members, key);
    ghost var L := D.Live(d.puds.members);
    pud := d.NewPort(cud, key);
    assert pud != null ==> D.Live(d.puds.members) == L + {pud};
  }

  lemma ShowsKeys(S: set<Entry>, L: set<Entry>, m: map<nat, Rec>)
    requires ShowsOwned(S, L, m)
    ensures m.Keys == Keys(S)
  {
  }

  method PortOf(d: D.Databases, cud: Entry, key: nat, ghost a: Abs)
    requires d.Sound() && Shows(d, a) && cud in d.cuds.members && cud.mark
    modifies d.puds, d.puds.tree, d.Heads(), d.puds.members`next
    modifies d.puds.members`left, d.puds.members`right, d.puds.members`parent, d.puds.members`color
    ensures d.Sound() && Shows(d, a.(ports := Added(a.ports, cud.key, key)))
    ensures fresh(d.puds.members - old(d.puds.members))
  {
    hide Db.Valid, D.QueueOk, D.QueuesOk, D.MarksOk, ShowsClients, ShowsOwned, Valids, D.Live;
    ShowsKeys(d.puds.members, Valids(d).1, a.ports);
    ghost var P, L := d.puds.members, Valids(d).1;
    var pud := AddPort(d, cud, key);
    if pud != null {
      AddedShows(P, L, a.ports, pud);
    }
  }

  /** tud_new, with what it does to the marks of all databases. */
  method AddThread(d: D.Databases, cud: Entry, key: nat) returns (tud: Entry?)
    requires d.Sound() && cud in d.cuds.members && cud.mark
    modifies d.tuds, d.tuds.tree
    modifies d.tuds.members`left, d.tuds.members`right, d.tuds.members`parent, d.tuds.members`color
    ensures d.Sound() && (tud == null <==> key in Keys(old(d.tuds.members)))
    ensures d.cuds.members == old(d.cuds.members)
    ensures d.puds.members == old(d.puds.members) && d.ruds.members == old(d.ruds.members)
    ensures tud == null ==> d.tuds.members == old(d.tuds.members) && Valids(d) == old(Valids(d))
    ensures tud != null ==> fresh(tud) && tud.key == key && tud.cud == cud
    ensures tud != null ==> d.tuds.members == old(d.tuds.members) + {tud}
    ensures tud != null ==> Valids(d) == var (c, p, t, r) := old(Valids(d)); (c, p, t + {tud}, r)
  {
    hide Db.Valid, D.QueueOk, D.QueuesOk, D.MarksOk;
    AnyWithKey(d.tuds.members, key);
    ghost var L := D.Live(d.tuds.members);
    tud := d.NewOwned(d.tuds, cud, key);
    assert tud != null ==> D.Live(d.tuds.members) == L + {tud};
  }

  method ThreadOf(d: D.Databases, cud: Entry, key: nat, ghost a: Abs)
    requires d.Sound() && Shows(d, a) && cud in d.cuds.members && cud.mark
    modifies d.tuds, d.tuds.tree
    modifies d.tuds.members`left, d.tuds.members`right, d.tuds.members`parent, d.tuds.members`color
    ensures d.Sound() && Shows(d, a.(threads := Added(a.threads, cud.key, key)))
    ensures fresh(d.tuds.members - old(d.tuds.members))
  {
    hide Db.Valid, D.QueueOk, D.QueuesOk, D.MarksOk, ShowsClients, ShowsOwned, Valids, D.Live;
    ShowsKeys(d.tuds.members, Valids(d).2, a.threads);
    ghost var S, L := d.tuds.members, Valids(d).2;
    var tud := AddThread(d, cud, key);
    if tud != null {
      AddedShows(S, L, a.threads, tud);
    }
  }

  /** rud_new, with what it does to the marks of all databases. */
  method AddRing(d: D.Databases, cud: Entry, key: nat) returns (rud: Entry?)
    requires d.Sound() && cud in d.cuds.members && cud.mark
    modifies d.ruds, d.ruds.tree
    modifies d.ruds.members`left, d.ruds.members`right, d.ruds.members`parent, d.ruds.members`color
    ensures d.Sound() && (rud == null <==> key in Keys(old(d.ruds.members)))
    ensures d.cuds.members == old(d.cuds.members)
    ensures d.puds.members == old(d.puds.members) && d.tuds.members == old(d.tuds.members)
    ensures rud == null ==> d.ruds.members == old(d.ruds.members) && Valids(d) == old(Valids(d))
    ensures rud != null ==> fresh(rud) && rud.key == key && rud.cud == cud
    ensures rud != null ==> d.ruds.members == old(d.ruds.members) + {rud}
    ensures rud != null ==> Valids(d) == var (c, p, t, r) := old(Valids(d)); (c, p, t, r + {rud})
  {
    hide Db.Valid, D.QueueOk, D.QueuesOk, D.MarksOk;
    AnyWithKey(d.ruds.members, key);
    ghost var L := D.Live(d.ruds.members);
    rud := d.NewOwned(d.ruds, cud, key);
    assert rud != null ==> D.Live(d.ruds.members) == L + {rud};
  }

  method RingOf(d: D.Databases, cud: Entry, key: nat, ghost a: Abs)
    requires d.Sound() && Shows(d, a) && cud in d.cuds.members && cud.mark
    modifies d.ruds, d.ruds.tree
    modifies d.ruds.members`left, d.ruds.members`right, d.ruds.members`parent, d.ruds.members`color
    ensures d.Sound() && Shows(d, a.(rings := Added(a.rings, cud.key, key)))
    ensures fresh(d.ruds.members - old(d.ruds.members))
  {
    hide Db.Valid, D.QueueOk, D.QueuesOk, D.MarksOk, ShowsClients, ShowsOwned, Valids, D.Live;
    ShowsKeys(d.ruds.members, Valids(d).3, a.rings);
    ghost var S, L := d.ruds.members, Valids(d).3;
    var rud := AddRing(d, cud, key);
    if rud != null {
      AddedShows(S, L, a.rings, rud);
    }
  }

  /** port_close, with what it does to the marks of all databases. */
  method Unmark(d: D.Databases, pud: Entry)
    requires d.Sound() && pud in d.puds.members
    modifies d.Records()`mark
    ensures d.Sound()
    ensures Valids(d) == var (c, p, t, r) := old(Valids(d)); (c, p - {pud}, t, r)
  {
    hide Db.Valid, D.QueueOk, D.QueuesOk, D.MarksOk;
    d.PortClose(pud);
  }

  /** The port under a key, as port_check finds it. */
  method Port(d: D.Databases, key: nat) returns (pud: Entry?)
    requires d.Sound()
    ensures pud != null ==> pud in d.puds.members && pud.key == key
    ensures pud == null ==> forall e :: e in d.puds.members && e.key == key ==> e !in Valids(d).1
    ensures Unique(d.puds.members)
  {
    UniqueKeys(d.puds);
    pud := d.Check(d.puds, key);
  }

  method NewThread(d: D.Databases, client: nat, key: nat, ghost a: Abs)
    requires d.Sound() && Shows(d, a)
    modifies Footprint(d)
    ensures d.Sound() && Shows(d, Apply(a, Op.NewThread(client, key))) && d.freed == old(d.freed)
    ensures forall o :: o in Footprint(d) ==> o in old(Footprint(d)) || fresh(o)
  {
    hide Db.Valid, D.QueueOk, D.QueuesOk, D.MarksOk, Shows;
    var cud := Client(d, client, a);
    if cud != null {
      ThreadOf(d, cud, key, a);
    }
  }

  method NewRing(d: D.Databases, client: nat, key: nat, ghost a: Abs)
    requires d.Sound() && Shows(d, a)
    modifies Footprint(d)
    ensures d.Sound() && Shows(d, Apply(a, Op.NewRing(client, key))) && d.freed == old(d.freed)
    ensures forall o :: o in Footprint(d) ==> o in old(Footprint(d)) || fresh(o)
  {
    hide Db.Valid, D.QueueOk, D.QueuesOk, D.MarksOk, Shows;
    var cud := Client(d, client, a);
    if cud != null {
      RingOf(d, cud, key, a);
    }
  }

  method ClosePort(d: D.Databases, key: nat, ghost a: Abs)
    requires d.Sound() && Shows(d, a)
    modifies d.Records()`mark
    ensures d.Sound() && Shows(d, Apply(a, Op.ClosePort(key)))
  {
    hide Db.Valid, D.QueueOk, D.QueuesOk, D.MarksOk, ShowsOwned, ShowsClients, ClosedOne, Unique, Valids, D.Live;
    var pud := Port(d, key);
    if pud != null {
      PortClosedShows(d.puds.members, Valids(d).1, pud, a.ports);
      Unmark(d, pud);
    } else {
      StillClosed(d.puds.members, Valids(d).1, a.ports, key);
    }
  }

  method CloseClient(d: D.Databases, key: nat, ghost a: Abs)
    requires d.Sound() && Shows(d, a)
    modifies d.Records()`mark
    ensures d.Sound() && Shows(d, Apply(a, Op.CloseClient(key)))
  {
    hide Db.Valid, D.QueueOk, D.QueuesOk, D.MarksOk, ShowsOwned, ShowsClients, Closed, Unique;
    UniqueKeys(d.cuds);
    var cud := Client(d, key, a);
    if cud != null {
      ghost var C := d.cuds.members;
      ClosedShows(d.puds.members, D.Live(d.puds.members), C, cud, a.ports);
      ClosedShows(d.tuds.members, D.Live(d.tuds.members), C, cud, a.threads);
      ClosedShows(d.ruds.members, D.Live(d.ruds.members), C, cud, a.rings);
      ClientClosedShows(C, D.Live(C), cud, a.clients);
      d.ClientClose(cud);
    }
  }

  // ---- runs ----------------------------------------------------------------------------------

  /** One operation of a script. */
  method Do(d: D.Databases, op: Op, ghost a: Abs)
    requires d.Sound() && Shows(d, a)
    modifies Footprint(d)
    ensures d.Sound() && Shows(d, Apply(a, op)) && d.freed == old(d.freed)
    ensures forall o :: o in Footprint(d) ==> o in old(Footprint(d)) || fresh(o)
  {
    hide Db.Valid, D.QueueOk, D.QueuesOk, D.MarksOk, Shows;
    match op
    case OpenClient(key) => OpenClient(d, key, a);
    case NewPort(client, key) => NewPort(d, client, key, a);
    case NewThread(client, key) => NewThread(d, client, key, a);
    case NewRing(client, key) => NewRing(d, client, key, a);
    case ClosePort(key) => ClosePort(d, key, a);
    case CloseClient(key) => CloseClient(d, key, a);
  }

  method Create() returns (d: D.Databases)
    ensures fresh(d) && fresh(Footprint(d)) && d.Sound() && d.freed == [] && Shows(d, EMPTY)
  {
    hide Db.Valid, D.QueueOk, D.QueuesOk, D.MarksOk;
    d := new D.Databases();
  }

  /** Any operations on new databases: they show exactly what was asked for. */
  method Live(ops: seq<Op>) returns (d: D.Databases)
    ensures fresh(d) && fresh(Footprint(d)) && d.Sound() && d.freed == [] && Shows(d, ApplyAll(EMPTY, ops))
  {
    d := Create();
    hide Footprint, D.Databases.Sound, Shows, Apply;
    assert ops[..0] == [];
    for i := 0 to |ops|
      invariant fresh(d) && fresh(Footprint(d)) && d.Sound() && d.freed == [] && Shows(d, ApplyAll(EMPTY, ops[..i]))
    {
      ApplySnoc(EMPTY, ops[..i], ops[i]);
      assert ops[..i + 1] == ops[..i] + [ops[i]];
      Do(d, ops[i], ApplyAll(EMPTY, ops[..i]));
    }
    assert ops[..|ops|] == ops;
  }

  /** The kinds and keys of what was given back. */
  function Log(f: seq<D.Freed>): (l: seq<(D.Kind, nat)>)
    ensures |l| == |f|
  {
    seq(|f|, i requires 0 <= i < |f| => (f[i].kind, f[i].record.key))
  }

  function Tagged(k: D.Kind, q: seq<nat>): (l: seq<(D.Kind, nat)>)
    ensures |l| == |q|
  {
    seq(|q|, i requires 0 <= i < |q| => (k, q[i]))
  }

  /** All that was ever registered, in the order in which client_close_all gives it back: threads,
      ring buffers, ports, clients, each kind by increasing key. */
  ghost function AtExit(a: Abs): seq<(D.Kind, nat)> {
    Tagged(D.Thread, Ascending(a.threads.Keys)) + Tagged(D.Ring, Ascending(a.rings.Keys))
    + Tagged(D.Port, Ascending(a.ports.Keys)) + Tagged(D.Client, Ascending(a.clients.Keys))
  }

  /** What that says: each freed record by its kind and key, and as many of each kind as there were. */
  lemma LogMeans(f: seq<D.Freed>, k: D.Kind, q: seq<nat>)
    ensures forall i :: 0 <= i < |f| ==> Log(f)[i] == (f[i].kind, f[i].record.key)
    ensures forall i :: 0 <= i < |q| ==> Tagged(k, q)[i] == (k, q[i])
  {
  }

  function KeysOf(q: seq<Entry>): seq<nat> {
    seq(|q|, i requires 0 <= i < |q| => q[i].key)
  }

  /** The order of a database, by key. */
  lemma KeysAscend(q: seq<Entry>)
    requires RbShape.Sorted(q)
    ensures KeysOf(q) == Ascending(Keys(ToSet(q)))
  {
    var keys := KeysOf(q);
    forall k: nat ensures k in keys <==> k in Ascending(Keys(ToSet(q))) {
      if k in keys {
        var i :| 0 <= i < |keys| && keys[i] == k;
        assert q[i] in ToSet(q);
      }
      if k in Keys(ToSet(q)) {
        var e :| e in ToSet(q) && e.key == k;
        var i :| 0 <= i < |q| && q[i] == e;
        assert keys[i] == k;
      }
    }
    RisingUnique(keys, Ascending(Keys(ToSet(q))));
  }

  lemma LogGiven(k: D.Kind, db: Db)
    requires db.Valid()
    ensures Log(D.Given(k, db.order)) == Tagged(k, Ascending(Keys(db.members)))
  {
    db.Order();
    KeysAscend(db.order);
  }

  lemma LogConcat(f: seq<D.Freed>, g: seq<D.Freed>)
    ensures Log(f + g) == Log(f) + Log(g)
  {
  }

  lemma LogAtExit(d: D.Databases, a: Abs)
    requires d.Sound() && Shows(d, a)
    ensures Log(D.Given(D.Thread, d.tuds.order) + D.Given(D.Ring, d.ruds.order)
                + D.Given(D.Port, d.puds.order) + D.Given(D.Client, d.cuds.order)) == AtExit(a)
  {
    var t, r := D.Given(D.Thread, d.tuds.order), D.Given(D.Ring, d.ruds.order);
    var p, c := D.Given(D.Port, d.puds.order), D.Given(D.Client, d.cuds.order);
    LogGiven(D.Thread, d.tuds);
    LogGiven(D.Ring, d.ruds);
    LogGiven(D.Port, d.puds);
    LogGiven(D.Client, d.cuds);
    hide Db.Valid, D.QueueOk, D.QueuesOk, D.MarksOk, Log, Tagged, Ascending;
    LogConcat(t, r);
    LogConcat(t + r, p);
    LogConcat(t + r + p, c);
  }

  /** Whatever was done before it, client_close_all gives back every record that was ever
      registered and no other, each once, by kind and key in that order, and leaves nothing. */
  method Lifetime(ops: seq<Op>) returns (d: D.Databases)
    ensures d.Records() == {} && Log(d.freed) == AtExit(ApplyAll(EMPTY, ops))
  {
    hide Db.Valid, D.QueueOk, D.QueuesOk, D.MarksOk, Shows, Log, AtExit, ApplyAll;
    d := Live(ops);
    LogAtExit(d, ApplyAll(EMPTY, ops));
    ghost var given := D.Given(D.Thread, d.tuds.order) + D.Given(D.Ring, d.ruds.order)
                       + D.Given(D.Port, d.puds.order) + D.Given(D.Client, d.cuds.order);
    d.CloseAll();
    assert d.freed == given;
  }
}
