/** What a script can see of the four databases: keys, owners and validity. */
module DatabaseModel {

  /** What a script can ask for, by the keys of the objects. */
  datatype Op =
    | OpenClient(key: nat)
    | NewPort(client: nat, key: nat)
    | NewThread(client: nat, key: nat)
    | NewRing(client: nat, key: nat)
    | ClosePort(key: nat)
    | CloseClient(key: nat)

  datatype Rec = Rec(owner: nat, live: bool)

  /** Of each client whether it is valid; of each other object its client and whether it is valid. */
  datatype Abs = Abs(clients: map<nat, bool>, ports: map<nat, Rec>, threads: map<nat, Rec>, rings: map<nat, Rec>)

  const EMPTY := Abs(map[], map[], map[], map[])

  predicate IsOpen(a: Abs, client: nat) {
    client in a.clients && a.clients[client]
  }

  function Added(m: map<nat, Rec>, client: nat, key: nat): map<nat, Rec> {
    if key in m then m else m[key := Rec(client, true)]
  }

  function ClosedOne(m: map<nat, Rec>, key: nat): map<nat, Rec> {
    if key in m then m[key := m[key].(live := false)] else m
  }

  /** All that belongs to the client is closed. */
  function Closed(m: map<nat, Rec>, client: nat): map<nat, Rec> {
    map k | k in m :: if m[k].owner == client then m[k].(live := false) else m[k]
  }

  /** One operation; with a key that does not name a valid object, or one already taken, it does
      nothing. */
  function Apply(a: Abs, op: Op): Abs {
    match op
    case OpenClient(key) => if key in a.clients then a else a.(clients := a.clients[key := true])
    case NewPort(client, key) => if IsOpen(a, client) then a.(ports := Added(a.ports, client, key)) else a
    case NewThread(client, key) => if IsOpen(a, client) then a.(threads := Added(a.threads, client, key)) else a
    case NewRing(client, key) => if IsOpen(a, client) then a.(rings := Added(a.rings, client, key)) else a
    case ClosePort(key) => a.(ports := ClosedOne(a.ports, key))
    case CloseClient(key) =>
      if IsOpen(a, key)
      then Abs(a.clients[key := false], Closed(a.ports, key), Closed(a.threads, key), Closed(a.rings, key))
      else a
  }

  function ApplyAll(a: Abs, ops: seq<Op>): Abs
    decreases |ops|
  {
    if ops == [] then a else ApplyAll(Apply(a, ops[0]), ops[1..])
  }

  lemma {:induction false} ApplySnoc(a: Abs, ops: seq<Op>, op: Op)
    ensures ApplyAll(a, ops + [op]) == Apply(ApplyAll(a, ops), op)
    decreases |ops|
  {
    if ops == [] {
      assert ApplyAll(Apply(a, op), []) == Apply(a, op);
    } else {
      assert (ops + [op])[1..] == ops[1..] + [op];
      ApplySnoc(Apply(a, ops[0]), ops[1..], op);
    }
  }

  /** Every object belongs to a client that was opened, and to a valid one while it is valid. */
  ghost predicate Owned(clients: map<nat, bool>, m: map<nat, Rec>) {
    forall k :: k in m ==> m[k].owner in clients && (m[k].live ==> clients[m[k].owner])
  }

  ghost predicate Consistent(a: Abs) {
    Owned(a.clients, a.ports) && Owned(a.clients, a.threads) && Owned(a.clients, a.rings)
  }

  /** What was there is still there, with its owner, and what was invalid is still invalid. */
  ghost predicate Outlived(m: map<nat, Rec>, m': map<nat, Rec>) {
    forall k :: k in m ==> k in m' && m'[k].owner == m[k].owner && (m'[k].live ==> m[k].live)
  }

  ghost predicate Later(a: Abs, a': Abs) {
    && (forall k :: k in a.clients ==> k in a'.clients && (a'.clients[k] ==> a.clients[k]))
    && Outlived(a.ports, a'.ports) && Outlived(a.threads, a'.threads) && Outlived(a.rings, a'.rings)
  }

  /** Nothing leaves a database, changes its owner or becomes valid again, over any operations. */
  lemma {:induction false} NothingReturns(a: Abs, ops: seq<Op>)
    requires Consistent(a)
    ensures Consistent(ApplyAll(a, ops)) && Later(a, ApplyAll(a, ops))
    decreases |ops|
  {
    if ops != [] {
      Advances(a, ops[0]);
      NothingReturns(Apply(a, ops[0]), ops[1..]);
      hide Apply, Consistent;
    }
  }

  lemma Advances(a: Abs, op: Op)
    requires Consistent(a)
    ensures Consistent(Apply(a, op)) && Later(a, Apply(a, op))
  {
    match op
    case OpenClient(_) =>
    case NewPort(client, key) => AddedAdvances(a.clients, a.ports, client, key);
    case NewThread(client, key) => AddedAdvances(a.clients, a.threads, client, key);
    case NewRing(client, key) => AddedAdvances(a.clients, a.rings, client, key);
    case ClosePort(_) =>
    case CloseClient(key) =>
      ClosedAdvances(a.clients, a.ports, key);
      ClosedAdvances(a.clients, a.threads, key);
      ClosedAdvances(a.clients, a.rings, key);
      hide Closed, Owned;
  }

  lemma AddedAdvances(clients: map<nat, bool>, m: map<nat, Rec>, client: nat, key: nat)
    requires Owned(clients, m)
    ensures client in clients && clients[client] ==> Owned(clients, Added(m, client, key))
    ensures Outlived(m, Added(m, client, key))
  {
  }

  lemma ClosedAdvances(clients: map<nat, bool>, m: map<nat, Rec>, key: nat)
    requires Owned(clients, m)
    ensures Owned(clients[key := false], Closed(m, key)) && Outlived(m, Closed(m, key))
  {
  }

  ghost predicate AllClosed(m: map<nat, Rec>, client: nat) {
    forall k :: k in m && m[k].owner == client ==> !m[k].live
  }

  /** Once a client has been closed, it and all that belongs to it, ports, threads and rings, are
      invalid in every later state, whatever is done in between. */
  lemma ClosedForGood(before: seq<Op>, client: nat, after: seq<Op>)
    requires client in ApplyAll(EMPTY, before).clients
    ensures var a := ApplyAll(EMPTY, before + [CloseClient(client)] + after);
            client in a.clients && !a.clients[client] &&
            AllClosed(a.ports, client) && AllClosed(a.threads, client) && AllClosed(a.rings, client)
  {
    NothingReturns(EMPTY, before);
    Advances(ApplyAll(EMPTY, before), CloseClient(client));
    NothingReturns(Apply(ApplyAll(EMPTY, before), CloseClient(client)), after);
    ApplyConcat(EMPTY, before + [CloseClient(client)], after);
    ApplySnoc(EMPTY, before, CloseClient(client));
  }

  lemma {:induction false} ApplyConcat(a: Abs, ops: seq<Op>, ops': seq<Op>)
    ensures ApplyAll(a, ops + ops') == ApplyAll(ApplyAll(a, ops), ops')
    decreases |ops|
  {
    if ops == [] {
      assert ops + ops' == ops';
    } else {
      assert (ops + ops')[1..] == ops[1..] + ops';
      ApplyConcat(Apply(a, ops[0]), ops[1..], ops');
    }
  }

  /** So is a port once it has been closed. */
  lemma PortClosedForGood(before: seq<Op>, key: nat, after: seq<Op>)
    requires key in ApplyAll(EMPTY, before).ports
    ensures var a := ApplyAll(EMPTY, before + [ClosePort(key)] + after); key in a.ports && !a.ports[key].live
  {
    NothingReturns(EMPTY, before);
    Advances(ApplyAll(EMPTY, before), ClosePort(key));
    NothingReturns(Apply(ApplyAll(EMPTY, before), ClosePort(key)), after);
    ApplyConcat(EMPTY, before + [ClosePort(key)], after);
    ApplySnoc(EMPTY, before, ClosePort(key));
  }

  // ---- orders of keys ----------------------------------------------------------------------

  ghost predicate Rising(q: seq<nat>) {
    forall i, j :: 0 <= i < j < |q| ==> q[i] < q[j]
  }

  ghost predicate IsLeast(m: nat, s: set<nat>) {
    m in s && forall x :: x in s ==> m <= x
  }

  lemma {:induction false} HasLeast(s: set<nat>)
    requires s != {}
    ensures exists m :: IsLeast(m, s)
    decreases |s|
  {
    var e :| e in s;
    var r := s - {e};
    assert forall x :: x in s ==> x == e || x in r;
    if r == {} {
      assert IsLeast(e, s);
    } else {
      HasLeast(r);
      var m :| IsLeast(m, r);
      assert IsLeast(e, s) || IsLeast(m, s);
    }
  }

  /** The keys in increasing order. */
  ghost function Ascending(s: set<nat>): (q: seq<nat>)
    ensures Rising(q) && forall k :: k in q <==> k in s
    decreases |s|
  {
    if s == {} then []
    else
      HasLeast(s);
      var m :| IsLeast(m, s);
      [m] + Ascending(s - {m})
  }

  lemma {:induction false} RisingUnique(p: seq<nat>, q: seq<nat>)
    requires Rising(p) && Rising(q) && forall k :: k in p <==> k in q
    ensures p == q
    decreases |p|
  {
    assert q == [] || q[0] in q;
    if p != [] {
      assert p[0] in p && p[0] in q;
      assert q[0] in q && q[0] in p;
      RisingTail(p);
      RisingTail(q);
      RisingUnique(p[1..], q[1..]);
      assert p == [p[0]] + p[1..] && q == [q[0]] + q[1..];
    }
  }

  lemma RisingTail(q: seq<nat>)
    requires Rising(q) && q != []
    ensures Rising(q[1..])
    ensures forall k :: k in q ==> q[0] <= k
    ensures forall k :: k in q[1..] <==> k in q && k != q[0]
  {
  }
}
