/** The event queue under any number of inserting threads and the one main thread that
    flushes it: src/evt.c, src/syncpipe.c, callback_flush in src/callback.c and the waiting
    loop of src/main.c, one shared access a step. Neither an exit in progress nor a callback
    that calls sleep again is part of this model. */
module EventProtocol {

  type Event = nat

  /** What becomes of a removed event. */
  datatype Verdict =
    | Closed      // its client is gone: freed, the flush goes on
    | Returned    // the callback ran: freed, the flush goes on
    | Raised      // the handler frees the event and raises an error
    | Unknown     // no such type: freed, an error is raised
    | BadReply    // a session callback returned what cannot be converted: the error is raised
                  // from within the handler, which has not freed the event

  /** Where a thread is inside evt_insert. */
  datatype Producer =
    | POut
    | PWait(e: Event)
    | PLocked(e: Event)
    | PInserted
    | PCounted
    | PWritten

  /** Where the main thread is: in pselect, in callback_flush with `n` events to go, or in the
      evt_remove called from there. */
  datatype Main =
    | Asleep
    | Awake
    | Flushing(n: nat)
    | MWait(n: nat)
    | MLocked(n: nat)
    | MTaken(n: nat, e: Event)
    | MRead(n: nat, e: Event)
    | MCounted(n: nat, e: Event)
    | MNone
    | Handling(n: nat, e: Event)

  datatype Holder = Free | ByMain | By(p: nat)

  datatype State = State(
    capacity: nat,                // bytes the pipe can hold
    queue: seq<Event>, counter: nat, pipe: nat, lock: Holder,
    main: Main, producers: map<nat, Producer>,
    made: nat,                    // events allocated so far
    inserted: seq<Event>, removed: seq<Event>,
    freed: seq<Event>, leaked: seq<Event>,
    peak: nat,                    // the longest queue ever left by an evt_insert
    before: seq<Event>, goal: seq<Event>)   // at the last snapshot: the events removed, and those to handle

  /** `counter` is an unsigned int. */
  const WIDTH: nat := 0x1_0000_0000

  function Initial(capacity: nat, threads: set<nat>): State {
    State(capacity, [], 0, 0, Free, Asleep, map p | p in threads :: POut, 0, [], [], [], [], 0, [], [])
  }

  datatype Step =
    | Produce(p: nat) | PLock(p: nat) | PInsert(p: nat) | PCount(p: nat) | PWrite(p: nat) | PUnlock(p: nat)
    | Wake | Snapshot | Loop | MLock | MTake | MReadPipe | MCount | MUnlock | Handle(v: Verdict)

  predicate Enabled(s: State, a: Step) {
    match a
    case Produce(p) => p in s.producers && s.producers[p].POut?
    case PLock(p) => p in s.producers && s.producers[p].PWait? && s.lock.Free?
    case PInsert(p) => p in s.producers && s.producers[p].PLocked?
    case PCount(p) => p in s.producers && s.producers[p].PInserted?
    case PWrite(p) => p in s.producers && s.producers[p].PCounted?
    case PUnlock(p) => p in s.producers && s.producers[p].PWritten?
    case Wake => s.main.Asleep? && s.pipe > 0
    case Snapshot => s.main.Awake?
    case Loop => s.main.Flushing?
    case MLock => s.main.MWait? && s.lock.Free?
    case MTake => s.main.MLocked?
    case MReadPipe => s.main.MTaken?
    case MCount => s.main.MRead?
    case MUnlock => s.main.MCounted? || s.main.MNone?
    case Handle(_) => s.main.Handling?
  }

  /** One step. The pipe is written only when it is not full, read only when not empty. */
  function Do(s: State, a: Step): State
    requires Enabled(s, a)
  {
    match a
    case Produce(p) => s.(producers := s.producers[p := PWait(s.made)], made := s.made + 1)
    case PLock(p) => s.(producers := s.producers[p := PLocked(s.producers[p].e)], lock := By(p))
    case PInsert(p) =>
      s.(producers := s.producers[p := PInserted], queue := s.queue + [s.producers[p].e],
         inserted := s.inserted + [s.producers[p].e])
    case PCount(p) => s.(producers := s.producers[p := PCounted], counter := (s.counter + 1) % WIDTH)
    case PWrite(p) =>
      s.(producers := s.producers[p := PWritten], pipe := if s.pipe < s.capacity then s.pipe + 1 else s.pipe)
    case PUnlock(p) =>
      s.(producers := s.producers[p := POut], lock := Free, peak := if |s.queue| > s.peak then |s.queue| else s.peak)
    case Wake => s.(main := Awake)
    case Snapshot =>
      s.(main := Flushing(s.counter), before := s.removed,
         goal := s.queue[..if s.counter < |s.queue| then s.counter else |s.queue|])
    case Loop => s.(main := if s.main.n == 0 then Asleep else MWait(s.main.n))
    case MLock => s.(main := MLocked(s.main.n), lock := ByMain)
    case MTake =>
      if s.queue == [] then s.(main := MNone)
      else s.(main := MTaken(s.main.n, s.queue[0]), queue := s.queue[1..], removed := s.removed + [s.queue[0]])
    case MReadPipe => s.(main := MRead(s.main.n, s.main.e), pipe := if s.pipe > 0 then s.pipe - 1 else 0)
    case MCount => s.(main := MCounted(s.main.n, s.main.e), counter := (s.counter + WIDTH - 1) % WIDTH)
    case MUnlock =>
      s.(main := if s.main.MNone? then Asleep else Handling(s.main.n, s.main.e), lock := Free)
    case Handle(v) =>
      match v
      case Closed => s.(main := Flushing(Less(s.main.n)), freed := s.freed + [s.main.e])
      case Returned => s.(main := Flushing(Less(s.main.n)), freed := s.freed + [s.main.e])
      case Raised => s.(main := Asleep, freed := s.freed + [s.main.e])
      case Unknown => s.(main := Asleep, freed := s.freed + [s.main.e])
      case BadReply => s.(main := Asleep, leaked := s.leaked + [s.main.e])
  }

  /** After a handler that closed the client or returned the flush goes on, its event freed; after any
      other the main thread goes to sleep, and only a bad reply keeps the event from being freed. */
  lemma HandlingEnds(s: State, v: Verdict)
    requires Enabled(s, Handle(v))
    ensures var s' := Do(s, Handle(v)); var e, n := s.main.e, s.main.n;
            match v
            case Closed => s' == s.(main := Flushing(if n > 0 then n - 1 else 0), freed := s.freed + [e])
            case Returned => s' == s.(main := Flushing(if n > 0 then n - 1 else 0), freed := s.freed + [e])
            case Raised => s' == s.(main := Asleep, freed := s.freed + [e])
            case Unknown => s' == s.(main := Asleep, freed := s.freed + [e])
            case BadReply => s' == s.(main := Asleep, leaked := s.leaked + [e])
  {
  }

  function Less(n: nat): nat {
    if n == 0 then 0 else n - 1
  }

  // ---- runs ----------------------------------------------------------------------

  predicate Runs(s: State, run: seq<Step>)
    decreases |run|
  {
    run == [] || (Enabled(s, run[0]) && Runs(Do(s, run[0]), run[1..]))
  }

  function Exec(s: State, run: seq<Step>): State
    requires Runs(s, run)
    decreases |run|
  {
    if run == [] then s else Exec(Do(s, run[0]), run[1..])
  }

  lemma {:induction false} ExecConcat(s: State, r: seq<Step>, r': seq<Step>)
    requires Runs(s, r) && Runs(Exec(s, r), r')
    ensures Runs(s, r + r') && Exec(s, r + r') == Exec(Exec(s, r), r')
    decreases |r|
  {
    if r == [] {
      assert r + r' == r';
    } else {
      ExecConcat(Do(s, r[0]), r[1..], r');
      assert (r + r')[1..] == r[1..] + r';
    }
  }

  lemma {:induction false} ExecPrefix(s: State, r: seq<Step>, k: nat)
    requires Runs(s, r) && k <= |r|
    ensures Runs(s, r[..k]) && Runs(Exec(s, r[..k]), r[k..]) && Exec(s, r) == Exec(Exec(s, r[..k]), r[k..])
    decreases |r|
  {
    if k == 0 {
      assert r[..k] == [] && r[k..] == r;
    } else {
      ExecPrefix(Do(s, r[0]), r[1..], k - 1);
      assert r[..k][0] == r[0] && r[..k][1..] == r[1..][..k - 1] && r[1..][k - 1..] == r[k..];
    }
  }

  // ---- the invariant ---------------------------------------------------------------

  predicate PCritical(q: Producer) {
    q.PLocked? || q.PInserted? || q.PCounted? || q.PWritten?
  }

  predicate MCritical(m: Main) {
    m.MLocked? || m.MTaken? || m.MRead? || m.MCounted? || m.MNone?
  }

  /** The lock is held by exactly the thread that is between its lock and its unlock. */
  ghost predicate LockInv(s: State) {
    && (MCritical(s.main) <==> s.lock.ByMain?)
    && (forall p :: p in s.producers ==> (PCritical(s.producers[p]) <==> s.lock == By(p)))
    && (s.lock.By? ==> s.lock.p in s.producers)
  }

  /** By how much the counter's value runs ahead of the length of the queue. */
  function CounterLag(s: State): int {
    if s.lock.By? && s.lock.p in s.producers && s.producers[s.lock.p].PInserted? then -1
    else if s.main.MTaken? || s.main.MRead? then 1
    else 0
  }

  /** By how much the bytes in the pipe run ahead of the length of the queue. */
  function PipeLag(s: State): int {
    if s.lock.By? && s.lock.p in s.producers && (s.producers[s.lock.p].PInserted? || s.producers[s.lock.p].PCounted?) then -1
    else if s.main.MTaken? then 1
    else 0
  }

  predicate JustWritten(s: State) {
    s.lock.By? && s.lock.p in s.producers && s.producers[s.lock.p].PWritten?
  }

  ghost predicate CountInv(s: State) {
    && 0 <= |s.queue| + CounterLag(s)
    && s.counter == (|s.queue| + CounterLag(s)) % WIDTH
  }

  ghost predicate PipeInv(s: State) {
    && s.pipe <= s.capacity
    && s.pipe <= |s.queue| + PipeLag(s)
    && (s.peak <= s.capacity ==>
          s.pipe == if JustWritten(s) && |s.queue| > s.capacity then s.capacity else |s.queue| + PipeLag(s))
    && (s.peak <= s.capacity && |s.queue| > s.capacity ==> s.lock.By?)
  }

  /** The event the main thread has removed and not yet disposed of. */
  function Hand(m: Main): seq<Event> {
    if m.MTaken? || m.MRead? || m.MCounted? || m.Handling? then [m.e] else []
  }

  ghost predicate NoDup(q: seq<Event>) {
    forall i, j :: 0 <= i < j < |q| ==> q[i] != q[j]
  }

  /** The thread holds an event that it has allocated and not yet inserted. */
  predicate Carries(q: Producer) {
    q.PWait? || q.PLocked?
  }

  ghost predicate FreshInv(s: State) {
    && (forall e :: e in s.inserted ==> e < s.made)
    && (forall p :: p in s.producers && Carries(s.producers[p])
          ==> s.producers[p].e < s.made && s.producers[p].e !in s.inserted)
    && (forall p, p' :: p in s.producers && p' in s.producers && p != p'
          ==> !Carries(s.producers[p]) || !Carries(s.producers[p']) || s.producers[p].e != s.producers[p'].e)
    && NoDup(s.inserted)
  }

  ghost predicate QueueInv(s: State) {
    && s.inserted == s.removed + s.queue
    && multiset(s.removed) == multiset(s.freed) + multiset(s.leaked) + multiset(Hand(s.main))
    && (s.leaked == [] ==> s.removed == s.freed + Hand(s.main))
  }

  /** How many events of the snapshot are still to be removed. */
  function ToGo(m: Main): nat {
    match m
    case Flushing(n) => n
    case MWait(n) => n
    case MLocked(n) => n
    case MTaken(n, _) => Less(n)
    case MRead(n, _) => Less(n)
    case MCounted(n, _) => Less(n)
    case Handling(n, _) => Less(n)
    case _ => 0
  }

  predicate InFlush(m: Main) {
    !m.Asleep? && !m.Awake? && !m.MNone?
  }

  /** During a flush, what it has removed and what it has still to remove make up the snapshot,
      which lies at the front of all that is queued. */
  ghost predicate FlushInv(s: State) {
    && !s.main.MNone?
    && (s.main.MWait? || s.main.MLocked? || s.main.MTaken? || s.main.MRead? || s.main.MCounted? || s.main.Handling?
        ==> s.main.n > 0)
    && (InFlush(s.main) ==>
          && s.before + s.goal <= s.removed + s.queue
          && s.removed <= s.before + s.goal
          && |s.removed| + ToGo(s.main) == |s.before| + |s.goal|)
  }

  ghost predicate Inv(s: State) {
    LockInv(s) && CountInv(s) && PipeInv(s) && FreshInv(s) && QueueInv(s) && FlushInv(s)
  }

  lemma InvInitial(capacity: nat, threads: set<nat>)
    ensures Inv(Initial(capacity, threads))
  {
  }

  lemma AddMod(x: int, y: int)
    ensures (x % WIDTH + y) % WIDTH == (x + y) % WIDTH
  {
    assert x == WIDTH * (x / WIDTH) + x % WIDTH;
    var k := x / WIDTH;
    assert (x + y) == WIDTH * k + (x % WIDTH + y);
    ModShift(x % WIDTH + y, k);
  }

  lemma ModShift(z: int, k: int)
    ensures (WIDTH * k + z) % WIDTH == z % WIDTH
  {
  }

  lemma LockStep(s: State, a: Step)
    requires LockInv(s) && Enabled(s, a)
    ensures LockInv(Do(s, a))
  {
  }

  lemma CountStep(s: State, a: Step)
    requires LockInv(s) && CountInv(s) && Enabled(s, a)
    ensures CountInv(Do(s, a))
  {
    AddMod(|s.queue| + CounterLag(s), 1);
    AddMod(|s.queue| + CounterLag(s), WIDTH - 1);
    ModShift(|s.queue| + CounterLag(s) - 1, 1);
  }

  lemma PipeStep(s: State, a: Step)
    requires LockInv(s) && PipeInv(s) && Enabled(s, a)
    ensures PipeInv(Do(s, a))
  {
  }

  lemma FreshStep(s: State, a: Step)
    requires FreshInv(s) && Enabled(s, a)
    ensures FreshInv(Do(s, a))
  {
    hide NoDup;
    match a
    case PInsert(p) => InsertFresh(s, p);
    case Produce(p) =>
    case PLock(p) => SameCarried(s, Do(s, a), p);
    case PCount(p) => SameCarried(s, Do(s, a), p);
    case PWrite(p) => SameCarried(s, Do(s, a), p);
    case PUnlock(p) => SameCarried(s, Do(s, a), p);
    case _ =>
  }

  lemma InsertFresh(s: State, p: nat)
    requires FreshInv(s) && Enabled(s, PInsert(p))
    ensures FreshInv(Do(s, PInsert(p)))
  {
    NoDupSnoc(s.inserted, s.producers[p].e);
    hide NoDup;
  }

  /** A thread that comes to carry nothing new. */
  lemma SameCarried(s: State, s': State, p: nat)
    requires FreshInv(s) && p in s.producers && s'.made == s.made && s'.inserted == s.inserted
    requires p in s'.producers && s'.producers == s.producers[p := s'.producers[p]]
    requires Carries(s'.producers[p]) ==> Carries(s.producers[p]) && s'.producers[p].e == s.producers[p].e
    ensures FreshInv(s')
  {
    hide NoDup;
  }

  lemma NoDupSnoc(q: seq<Event>, e: Event)
    requires NoDup(q) && e !in q
    ensures NoDup(q + [e])
  {
  }

  lemma QueueStep(s: State, a: Step)
    requires QueueInv(s) && Enabled(s, a)
    ensures QueueInv(Do(s, a))
  {
    var s' := Do(s, a);
    match a
    case PInsert(p) => Snoc(s.removed, s.queue, s.producers[p].e);
    case MTake => TakeStep(s);
    case Handle(v) => HandleStep(s, v);
    case _ => assert Hand(s'.main) == Hand(s.main);
  }

  lemma Snoc(a: seq<Event>, b: seq<Event>, e: Event)
    ensures a + b + [e] == a + (b + [e])
  {
  }

  lemma TakeStep(s: State)
    requires QueueInv(s) && Enabled(s, MTake)
    ensures QueueInv(Do(s, MTake))
  {
    assert Hand(s.main) == [];
    if s.queue != [] {
      var e, rest := s.queue[0], s.queue[1..];
      var s' := Do(s, MTake);
      assert Hand(s'.main) == [e] && s'.queue == rest && s'.removed == s.removed + [e];
      hide Do;
      Shift(s.removed, s.queue);
      assert multiset(s'.removed) == multiset(s.removed) + multiset([e]);
      assert s.leaked == [] ==> s.removed == s.freed;
    }
  }

  lemma Shift(a: seq<Event>, b: seq<Event>)
    requires b != []
    ensures a + b == (a + [b[0]]) + b[1..]
  {
  }

  lemma HandleStep(s: State, v: Verdict)
    requires QueueInv(s) && Enabled(s, Handle(v))
    ensures QueueInv(Do(s, Handle(v)))
  {
    var s' := Do(s, Handle(v));
    assert Hand(s.main) == [s.main.e] && Hand(s'.main) == [];
    assert s'.freed + [] == s'.freed;
  }

  lemma FlushStep(s: State, a: Step)
    requires LockInv(s) && CountInv(s) && FlushInv(s) && Enabled(s, a)
    ensures FlushInv(Do(s, a))
  {
    hide LockInv, CountInv;
    match a
    case PInsert(p) => InsertFlush(s, p);
    case Snapshot => SnapshotFlush(s);
    case MTake => TakeFlush(s);
    case _ =>
      var s' := Do(s, a);
      assert s'.queue == s.queue && s'.removed == s.removed && s'.before == s.before && s'.goal == s.goal;
  }

  /** An insertion only adds to what lies behind the snapshot. */
  lemma InsertFlush(s: State, p: nat)
    requires FlushInv(s) && Enabled(s, PInsert(p))
    ensures FlushInv(Do(s, PInsert(p)))
  {
    Snoc(s.removed, s.queue, s.producers[p].e);
  }

  /** No more events are counted than are queued. */
  lemma SnapshotFlush(s: State)
    requires LockInv(s) && CountInv(s) && Enabled(s, Snapshot)
    ensures FlushInv(Do(s, Snapshot))
  {
    var n := s.counter;
    assert CounterLag(s) <= 0;
    ModAtMost(|s.queue| + CounterLag(s));
    assert n <= |s.queue|;
    assert s.removed + s.queue[..n] <= s.removed + s.queue;
  }

  lemma ModAtMost(x: nat)
    ensures x % WIDTH <= x
  {
  }

  lemma TakeFlush(s: State)
    requires FlushInv(s) && Enabled(s, MTake)
    ensures FlushInv(Do(s, MTake))
  {
    var r, g := s.removed, s.before + s.goal;
    assert |r| < |g|;
    assert g <= r + s.queue && |r + s.queue| > |r|;
    assert s.queue != [];
    Shift(r, s.queue);
    assert g[|r|] == (r + s.queue)[|r|] == s.queue[0];
    assert r + [s.queue[0]] == g[..|r| + 1];
  }

  lemma InvStep(s: State, a: Step)
    requires Inv(s) && Enabled(s, a)
    ensures Inv(Do(s, a))
  {
    LockStep(s, a);
    CountStep(s, a);
    PipeStep(s, a);
    FreshStep(s, a);
    QueueStep(s, a);
    FlushStep(s, a);
  }

  /** Every state that any interleaving reaches satisfies the invariant. */
  lemma {:induction false} InvRun(s: State, run: seq<Step>)
    requires Inv(s) && Runs(s, run)
    ensures Inv(Exec(s, run))
    decreases |run|
  {
    if run != [] {
      InvStep(s, run[0]);
      InvRun(Do(s, run[0]), run[1..]);
    }
  }

  // ---- what the invariant means ------------------------------------------------------

  lemma Reached(capacity: nat, threads: set<nat>, run: seq<Step>) returns (s: State)
    requires Runs(Initial(capacity, threads), run)
    ensures s == Exec(Initial(capacity, threads), run) && Inv(s) && s.capacity == capacity
  {
    InvInitial(capacity, threads);
    InvRun(Initial(capacity, threads), run);
    PeakGrows(Initial(capacity, threads), run);
    s := Exec(Initial(capacity, threads), run);
  }

  /** On every interleaving, when nobody is inside an operation: the counter is the length of the
      queue, as an unsigned int, the pipe holds no more bytes than events are queued, and as many
      as long as the backlog has never exceeded its capacity; the main thread is then woken
      exactly when the queue is not empty. */
  lemma Quiescent(capacity: nat, threads: set<nat>, run: seq<Step>)
    requires Runs(Initial(capacity, threads), run) && Exec(Initial(capacity, threads), run).lock.Free?
    ensures var s := Exec(Initial(capacity, threads), run);
            s.counter == |s.queue| % 0x1_0000_0000 && (|s.queue| < 0x1_0000_0000 ==> s.counter == |s.queue|) &&
            s.pipe <= |s.queue| &&
            (s.peak <= capacity ==> s.pipe == |s.queue|) &&
            (s.peak <= capacity && s.main.Asleep? ==> (Enabled(s, Wake) <==> s.queue != []))
  {
    var s := Reached(capacity, threads, run);
  }

  /** On every interleaving, every event inserted is queued, freed, leaked or in the hands of the
      main thread, exactly once in exactly one of the four. */
  lemma Accounted(capacity: nat, threads: set<nat>, run: seq<Step>)
    requires Runs(Initial(capacity, threads), run)
    ensures var s := Exec(Initial(capacity, threads), run);
            multiset(s.inserted) ==
              multiset(s.freed) + multiset(s.leaked) + multiset(Hand(s.main)) + multiset(s.queue) &&
            forall e :: multiset(s.inserted)[e] <= 1
  {
    var s := Reached(capacity, threads, run);
    NoDupMultiset(s.inserted);
  }

  lemma {:induction false} NoDupMultiset(q: seq<Event>)
    requires NoDup(q)
    ensures forall e :: multiset(q)[e] <= 1
    decreases |q|
  {
    if q != [] {
      var h, t := q[0], q[1..];
      assert q == [h] + t;
      NoDupMultiset(t);
      assert forall e :: e in t ==> e != h;
      assert h !in multiset(t);
    }
  }

  predicate NoBadReply(run: seq<Step>) {
    forall i :: 0 <= i < |run| ==> run[i] != Handle(BadReply)
  }

  lemma NoBadReplyTail(run: seq<Step>)
    requires run != []
    ensures NoBadReply(run) <==> run[0] != Handle(BadReply) && NoBadReply(run[1..])
  {
    if run[0] != Handle(BadReply) && NoBadReply(run[1..]) {
      forall i | 0 <= i < |run| ensures run[i] != Handle(BadReply) {
        assert i > 0 ==> run[i] == run[1..][i - 1];
      }
    }
  }

  /** An event is lost only by a session callback's bad reply. */
  lemma {:induction false} LeakedStays(s: State, run: seq<Step>)
    requires Runs(s, run)
    ensures NoBadReply(run) ==> Exec(s, run).leaked == s.leaked
    ensures !NoBadReply(run) ==> |Exec(s, run).leaked| > |s.leaked|
    ensures |Exec(s, run).leaked| >= |s.leaked|
    decreases |run|
  {
    if run != [] {
      LeakedStays(Do(s, run[0]), run[1..]);
      NoBadReplyTail(run);
      hide NoBadReply;
    }
  }

  /** From the start on: events are freed in the order of their insertion, each once, and none
      is lost, exactly as long as no session callback gives a bad reply. */
  lemma FreedInOrder(capacity: nat, threads: set<nat>, run: seq<Step>)
    requires Runs(Initial(capacity, threads), run)
    ensures var s := Exec(Initial(capacity, threads), run);
            (NoBadReply(run) <==> s.leaked == []) &&
            (NoBadReply(run) ==> s.inserted == s.freed + Hand(s.main) + s.queue)
  {
    InvInitial(capacity, threads);
    InvRun(Initial(capacity, threads), run);
    LeakedStays(Initial(capacity, threads), run);
  }

  predicate NoSnapshot(run: seq<Step>) {
    forall i :: 0 <= i < |run| ==> run[i] != Snapshot
  }

  lemma {:induction false} SnapshotKept(s: State, run: seq<Step>)
    requires Runs(s, run) && NoSnapshot(run)
    ensures Exec(s, run).before == s.before && Exec(s, run).goal == s.goal
    decreases |run|
  {
    if run != [] {
      SnapshotKept(Do(s, run[0]), run[1..]);
    }
  }

  /** A flush that ends without an error has removed exactly the events that were counted when
      it began, oldest first, whatever was inserted meanwhile. */
  lemma FlushExact(s: State, run: seq<Step>)
    requires Inv(s) && s.main.Awake? && NoSnapshot(run)
    requires Runs(Do(s, Snapshot), run) && Exec(Do(s, Snapshot), run).main == Flushing(0)
    ensures s.counter <= |s.queue|
    ensures Exec(Do(s, Snapshot), run).removed == s.removed + s.queue[..s.counter]
    ensures s.lock.Free? && |s.queue| < WIDTH ==> s.queue[..s.counter] == s.queue
  {
    SnapshotTakes(s);
    InvStep(s, Snapshot);
    hide Do, LockInv, CountInv, PipeInv, FreshInv, QueueInv, FlushInv;
    InvRun(Do(s, Snapshot), run);
    SnapshotKept(Do(s, Snapshot), run);
    FlushDone(Exec(Do(s, Snapshot), run));
  }

  lemma SnapshotTakes(s: State)
    requires Inv(s) && s.main.Awake?
    ensures s.counter <= |s.queue|
    ensures Do(s, Snapshot).before == s.removed && Do(s, Snapshot).goal == s.queue[..s.counter]
    ensures s.lock.Free? && |s.queue| < WIDTH ==> s.counter == |s.queue| && s.queue[..s.counter] == s.queue
  {
    hide FreshInv, PipeInv, QueueInv;
  }

  lemma FlushDone(s: State)
    requires FlushInv(s) && s.main == Flushing(0)
    ensures s.removed == s.before + s.goal
  {
  }

  predicate OfMain(a: Step) {
    a.Wake? || a.Snapshot? || a.Loop? || a.MLock? || a.MTake? || a.MReadPipe? || a.MCount? || a.MUnlock? || a.Handle?
  }

  function MainSteps(run: seq<Step>): nat {
    if run == [] then 0 else (if OfMain(run[0]) then 1 else 0) + MainSteps(run[1..])
  }

  /** What a flush in progress still has to do, in steps of the main thread. */
  function Work(m: Main): int {
    match m
    case Asleep => 0
    case Awake => 0
    case Flushing(n) => 7 * n + 1
    case MWait(n) => 7 * n
    case MLocked(n) => 7 * n - 1
    case MTaken(n, _) => 7 * n - 2
    case MRead(n, _) => 7 * n - 3
    case MCounted(n, _) => 7 * n - 4
    case Handling(n, _) => 7 * n - 5
    case MNone => 1
  }

  lemma WorkStep(s: State, a: Step)
    requires Inv(s) && Enabled(s, a) && !a.Wake? && !a.Snapshot?
    ensures if OfMain(a) then Work(Do(s, a).main) < Work(s.main) else Do(s, a).main == s.main
  {
    hide LockInv, CountInv, PipeInv, FreshInv, QueueInv;
  }

  predicate NoWake(run: seq<Step>) {
    forall i :: 0 <= i < |run| ==> !run[i].Wake? && !run[i].Snapshot?
  }

  /** A flush ends: with `n` events to go the main thread takes at most 7n+1 steps before it
      sleeps again, however many events are inserted in the meantime. */
  lemma {:induction false} FlushEnds(s: State, run: seq<Step>)
    requires Inv(s) && Runs(s, run) && NoWake(run)
    ensures MainSteps(run) <= Work(s.main)
    decreases |run|
  {
    if run != [] {
      InvStep(s, run[0]);
      assert NoWake(run[1..]) by {
        forall i | 0 <= i < |run| - 1 ensures run[1..][i] == run[i + 1] {
        }
      }
      FlushEnds(Do(s, run[0]), run[1..]);
      WorkStep(s, run[0]);
      hide Inv, Do, Enabled;
    } else {
      hide LockInv, CountInv, PipeInv, FreshInv, QueueInv;
    }
  }

  /** Nothing ever gets stuck in a flush: the main thread can go on, or the thread that holds
      the lock can. */
  lemma NoDeadlock(capacity: nat, threads: set<nat>, run: seq<Step>)
    requires Runs(Initial(capacity, threads), run) && !Exec(Initial(capacity, threads), run).main.Asleep?
    ensures var s := Exec(Initial(capacity, threads), run);
            exists a :: Enabled(s, a) && (OfMain(a) || (s.lock.By? && a in OwnSteps(s.lock.p)))
  {
    var s := Reached(capacity, threads, run);
    var a := match s.main
      case Awake => Snapshot
      case Flushing(_) => Loop
      case MWait(_) =>
        if !s.lock.By? then MLock else
        var q := s.producers[s.lock.p];
        if q.PLocked? then PInsert(s.lock.p) else if q.PInserted? then PCount(s.lock.p)
        else if q.PCounted? then PWrite(s.lock.p) else PUnlock(s.lock.p)
      case MLocked(_) => MTake
      case MTaken(_, _) => MReadPipe
      case MRead(_, _) => MCount
      case MCounted(_, _) => MUnlock
      case MNone => MUnlock
      case Handling(_, _) => Handle(Closed);
    assert Enabled(s, a);
  }

  function OwnSteps(p: nat): set<Step> {
    {PInsert(p), PCount(p), PWrite(p), PUnlock(p)}
  }

  // ---- the pipe ----------------------------------------------------------------------

  /** In every state of the run where nobody is inside an operation, pipe and queue agree. */
  ghost predicate AlwaysExact(s: State, run: seq<Step>)
    requires Runs(s, run)
  {
    forall k :: 0 <= k <= |run| ==> Runs(s, run[..k]) && Agree(Exec(s, run[..k]))
  }

  predicate Agree(s: State) {
    s.lock.Free? ==> s.pipe == |s.queue|
  }

  lemma {:induction false} PeakGrows(s: State, run: seq<Step>)
    requires Runs(s, run)
    ensures Exec(s, run).peak >= s.peak && Exec(s, run).capacity == s.capacity
    decreases |run|
  {
    if run != [] {
      PeakGrows(Do(s, run[0]), run[1..]);
    }
  }

  lemma OverflowStep(s: State, a: Step)
    requires Inv(s) && Enabled(s, a) && s.peak <= s.capacity
    ensures Do(s, a).peak > s.capacity ==> !Agree(Do(s, a))
    ensures Do(s, a).capacity == s.capacity
  {
    hide CountInv, FreshInv, QueueInv, FlushInv;
  }

  /** Where the backlog exceeds the capacity for the first time, the pipe falls behind. */
  lemma {:induction false} Overflow(s: State, run: seq<Step>) returns (k: nat)
    requires Inv(s) && Runs(s, run) && s.peak <= s.capacity < Exec(s, run).peak
    ensures k <= |run| && Runs(s, run[..k]) && !Agree(Exec(s, run[..k]))
    decreases |run|
  {
    var s1 := Do(s, run[0]);
    InvStep(s, run[0]);
    OverflowStep(s, run[0]);
    hide Inv, Do, Enabled, Agree;
    if s1.peak > s.capacity {
      k := 1;
      assert run[..1] == [run[0]];
      assert Exec(s, run[..1]) == s1;
    } else {
      PeakGrows(s1, run[1..]);
      var k1 := Overflow(s1, run[1..]);
      k := k1 + 1;
      assert run[..k][1..] == run[1..][..k1];
    }
  }

  /** The bytes in the pipe are the events in the queue, in every quiescent state of a run, if
      and only if no insertion of the run left more events queued than the pipe can hold. */
  lemma PipeExact(capacity: nat, threads: set<nat>, run: seq<Step>)
    requires Runs(Initial(capacity, threads), run)
    ensures AlwaysExact(Initial(capacity, threads), run) <==> Exec(Initial(capacity, threads), run).peak <= capacity
  {
    var s := Initial(capacity, threads);
    InvInitial(capacity, threads);
    PeakGrows(s, run);
    if Exec(s, run).peak > capacity {
      var k := Overflow(s, run);
    } else {
      forall k | 0 <= k <= |run| ensures Runs(s, run[..k]) && Agree(Exec(s, run[..k])) {
        ExecPrefix(s, run, k);
        InvRun(s, run[..k]);
        PeakGrows(s, run[..k]);
        PeakGrows(Exec(s, run[..k]), run[k..]);
      }
    }
  }

  // ---- a lost wake-up ------------------------------------------------------------------

  lemma ExecSnoc(s: State, run: seq<Step>, a: Step)
    requires Runs(s, run) && Enabled(Exec(s, run), a)
    ensures Runs(s, run + [a]) && Exec(s, run + [a]) == Do(Exec(s, run), a)
  {
    assert Runs(Exec(s, run), [a]);
    ExecConcat(s, run, [a]);
  }

  function Max(a: nat, b: nat): nat {
    if a < b then b else a
  }

  /** What can be seen between two operations: lengths, not the events themselves. */
  ghost predicate Looks(p: nat, s: State, len: nat, pipe: nat, peak: nat, main: Main) {
    && s.lock.Free? && p in s.producers && s.producers[p].POut?
    && |s.queue| == len && s.pipe == pipe && s.peak == peak && s.main == main && Inv(s)
  }

  /** The main thread sleeps beside a queue that is not empty, and nothing in the pipe wakes it. */
  predicate Lost(s: State) {
    s.main.Asleep? && s.lock.Free? && s.queue != [] && !Enabled(s, Wake)
  }

  /** The steps of a whole evt_insert by one thread. */
  function InsertRun(p: nat): seq<Step> {
    [Produce(p), PLock(p), PInsert(p), PCount(p), PWrite(p), PUnlock(p)]
  }

  lemma WholeInsert(p: nat, s: State, run: seq<Step>) returns (run': seq<Step>)
    requires Runs(s, run) && Looks(p, Exec(s, run), |Exec(s, run).queue|, Exec(s, run).pipe, Exec(s, run).peak, Exec(s, run).main)
    ensures Runs(s, run') && Exec(s, run').capacity == Exec(s, run).capacity
    ensures var e := Exec(s, run);
            Looks(p, Exec(s, run'), |e.queue| + 1, if e.pipe < e.capacity then e.pipe + 1 else e.pipe,
                  Max(e.peak, |e.queue| + 1), e.main)
  {
    hide InsertRun, Runs, Exec, Inv;
    InsertSteps(p, Exec(s, run));
    InvRun(Exec(s, run), InsertRun(p));
    ExecConcat(s, run, InsertRun(p));
    run' := run + InsertRun(p);
  }

  lemma InsertSteps(p: nat, s: State)
    requires Looks(p, s, |s.queue|, s.pipe, s.peak, s.main)
    ensures Runs(s, InsertRun(p)) && var s' := Exec(s, InsertRun(p));
            s'.lock.Free? && p in s'.producers && s'.producers[p].POut? && |s'.queue| == |s.queue| + 1 &&
            s'.main == s.main && s'.peak == Max(s.peak, |s.queue| + 1) &&
            s'.pipe == (if s.pipe < s.capacity then s.pipe + 1 else s.pipe) && s'.capacity == s.capacity
  {
    hide Inv;
    var s1 := Do(s, Produce(p));
    var s2 := Do(s1, PLock(p));
    var s3 := Do(s2, PInsert(p));
    var s4 := Do(s3, PCount(p));
    var s5 := Do(s4, PWrite(p));
    var s6 := Do(s5, PUnlock(p));
    Chain(s5, PUnlock(p), []);
    Chain(s4, PWrite(p), [PUnlock(p)]);
    Chain(s3, PCount(p), [PWrite(p), PUnlock(p)]);
    Chain(s2, PInsert(p), [PCount(p), PWrite(p), PUnlock(p)]);
    Chain(s1, PLock(p), [PInsert(p), PCount(p), PWrite(p), PUnlock(p)]);
    Chain(s, Produce(p), [PLock(p), PInsert(p), PCount(p), PWrite(p), PUnlock(p)]);
  }

  lemma Chain(s: State, a: Step, rest: seq<Step>)
    requires Enabled(s, a) && Runs(Do(s, a), rest)
    ensures Runs(s, [a] + rest) && Exec(s, [a] + rest) == Exec(Do(s, a), rest)
  {
    assert ([a] + rest)[1..] == rest;
  }

  /** A whole evt_remove and the handling of its event, within a flush. */
  lemma WholeRemove(p: nat, s: State, run: seq<Step>) returns (run': seq<Step>)
    requires Runs(s, run) && Exec(s, run).main.Flushing? && Exec(s, run).main.n > 0
    requires Looks(p, Exec(s, run), |Exec(s, run).queue|, Exec(s, run).pipe, Exec(s, run).peak, Exec(s, run).main)
    requires |Exec(s, run).queue| > 0
    ensures Runs(s, run') && Exec(s, run').capacity == Exec(s, run).capacity
    ensures var e := Exec(s, run);
            Looks(p, Exec(s, run'), |e.queue| - 1, if e.pipe > 0 then e.pipe - 1 else 0, e.peak, Flushing(e.main.n - 1))
  {
    hide TakeRun, DisposeRun, Runs, Exec, Inv;
    assert Inv(Exec(s, run));
    var e3 := TakeSteps(Exec(s, run));
    var e4 := DisposeSteps(e3, Returned);
    InvRun(Exec(s, run), TakeRun());
    InvRun(e3, DisposeRun(Returned));
    ExecConcat(s, run, TakeRun());
    ExecConcat(s, run + TakeRun(), DisposeRun(Returned));
    run' := run + TakeRun() + DisposeRun(Returned);
  }

  function TakeRun(): seq<Step> {
    [Loop, MLock, MTake]
  }

  function DisposeRun(v: Verdict): seq<Step> {
    [MReadPipe, MCount, MUnlock, Handle(v)]
  }

  lemma TakeSteps(s: State) returns (s3: State)
    requires s.main.Flushing? && s.main.n > 0 && s.queue != [] && s.lock.Free?
    ensures Runs(s, TakeRun()) && s3 == Exec(s, TakeRun())
    ensures s3 == s.(lock := ByMain, main := MTaken(s.main.n, s.queue[0]), queue := s.queue[1..],
                     removed := s.removed + [s.queue[0]])
  {
    var s1 := Do(s, Loop);
    var s2 := Do(s1, MLock);
    s3 := Do(s2, MTake);
    Chain(s2, MTake, []);
    Chain(s1, MLock, [MTake]);
    Chain(s, Loop, [MLock, MTake]);
  }

  lemma DisposeSteps(s: State, v: Verdict) returns (s4: State)
    requires s.main.MTaken? && s.main.n > 0
    ensures Runs(s, DisposeRun(v)) && s4 == Exec(s, DisposeRun(v))
    ensures s4.lock.Free? && s4.queue == s.queue && s4.pipe == if s.pipe > 0 then s.pipe - 1 else 0
    ensures s4.peak == s.peak && s4.producers == s.producers && s4.capacity == s.capacity
    ensures v.Returned? ==> s4.main == Flushing(s.main.n - 1)
    ensures v.BadReply? ==> s4.main.Asleep? && s4.leaked == s.leaked + [s.main.e]
  {
    var s1 := Do(s, MReadPipe);
    var s2 := Do(s1, MCount);
    var s3 := Do(s2, MUnlock);
    s4 := Do(s3, Handle(v));
    Chain(s3, Handle(v), []);
    Chain(s2, MUnlock, [Handle(v)]);
    Chain(s1, MCount, [MUnlock, Handle(v)]);
    Chain(s, MReadPipe, [MCount, MUnlock, Handle(v)]);
  }

  lemma {:induction false} Fill(p: nat, capacity: nat, threads: set<nat>, k: nat) returns (run: seq<Step>)
    requires p in threads && k <= capacity + 1
    ensures Runs(Initial(capacity, threads), run) && Exec(Initial(capacity, threads), run).capacity == capacity
    ensures Looks(p, Exec(Initial(capacity, threads), run), k, if k <= capacity then k else capacity, k, Asleep)
  {
    if k == 0 {
      InvInitial(capacity, threads);
      run := [];
    } else {
      hide Runs, Exec, Inv;
      run := Fill(p, capacity, threads, k - 1);
      run := WholeInsert(p, Initial(capacity, threads), run);
    }
  }

  lemma {:induction false} Drain(p: nat, s: State, run: seq<Step>, k: nat) returns (run': seq<Step>)
    requires Runs(s, run) && Exec(s, run).main == Flushing(k + 1)
    requires Looks(p, Exec(s, run), k + 1, k, Exec(s, run).peak, Flushing(k + 1))
    ensures Runs(s, run') && Exec(s, run').capacity == Exec(s, run).capacity
    ensures Looks(p, Exec(s, run'), 1, 0, Exec(s, run).peak, Flushing(1))
    decreases k
  {
    if k == 0 {
      run' := run;
    } else {
      run' := WholeRemove(p, s, run);
      run' := Drain(p, s, run', k - 1);
    }
  }

  /** The main thread wakes up to a pipe that is not empty and takes its snapshot of `n` events. */
  lemma WakeToFlush(p: nat, capacity: nat, threads: set<nat>, run: seq<Step>, n: nat, pipe: nat) returns (run': seq<Step>)
    requires Runs(Initial(capacity, threads), run) && 0 < pipe && n < WIDTH
    requires Looks(p, Exec(Initial(capacity, threads), run), n, pipe, n, Asleep)
    ensures Runs(Initial(capacity, threads), run')
    ensures Exec(Initial(capacity, threads), run').capacity == Exec(Initial(capacity, threads), run).capacity
    ensures Looks(p, Exec(Initial(capacity, threads), run'), n, pipe, n, Flushing(n))
  {
    var s := Initial(capacity, threads);
    var e := Exec(s, run);
    Quiescent(capacity, threads, run);
    assert Enabled(e, Wake);
    var e1 := Do(e, Wake);
    assert Enabled(e1, Snapshot);
    InvStep(e, Wake);
    InvStep(e1, Snapshot);
    hide Runs, Exec, Inv;
    ExecSnoc(s, run, Wake);
    ExecSnoc(s, run + [Wake], Snapshot);
    run' := run + [Wake] + [Snapshot];
  }

  /** One event more than the pipe holds, and another one inserted while they are flushed, leave
      the main thread asleep beside an empty pipe and a queue that is not empty. */
  lemma LostWakeUp(capacity: nat, threads: set<nat>) returns (run: seq<Step>)
    requires threads != {} && capacity + 1 < WIDTH
    ensures Runs(Initial(capacity, threads), run)
    ensures Lost(Exec(Initial(capacity, threads), run)) && Exec(Initial(capacity, threads), run).peak == capacity + 1
  {
    hide Runs, Exec, Inv;
    var p :| p in threads;
    var s := Initial(capacity, threads);
    run := Fill(p, capacity, threads, capacity + 1);
    if capacity > 0 {
      run := WakeToFlush(p, capacity, threads, run, capacity + 1, capacity);
      run := Drain(p, s, run, capacity);
      run := WholeInsert(p, s, run);
      run := WholeRemove(p, s, run);
      ExecSnoc(s, run, Loop);
      run := run + [Loop];
    }
  }

  /** Some run whose backlog never exceeds `backlog` loses a wake-up if and only if that is more
      than the pipe can hold; the pipe holds fewer bytes than the counter can count. */
  lemma LostExactly(capacity: nat, threads: set<nat>, backlog: nat)
    requires threads != {} && capacity + 1 < WIDTH
    ensures backlog > capacity <==>
            exists run :: Runs(Initial(capacity, threads), run) && Exec(Initial(capacity, threads), run).peak <= backlog
                          && Lost(Exec(Initial(capacity, threads), run))
  {
    if backlog > capacity {
      var run := LostWakeUp(capacity, threads);
    } else {
      forall run | Runs(Initial(capacity, threads), run) && Exec(Initial(capacity, threads), run).peak <= backlog
        ensures !Lost(Exec(Initial(capacity, threads), run))
      {
        if Exec(Initial(capacity, threads), run).lock.Free? {
          Quiescent(capacity, threads, run);
        }
      }
    }
  }

  /** A run with a bad reply: the event in question is neither queued nor freed, now or later. */
  lemma LeakedRun(capacity: nat, threads: set<nat>) returns (run: seq<Step>)
    requires threads != {} && 0 < capacity
    ensures Runs(Initial(capacity, threads), run) && !NoBadReply(run)
    ensures var s := Exec(Initial(capacity, threads), run); s.leaked != [] && s.queue == [] && s.main.Asleep?
  {
    var p :| p in threads;
    var s := Initial(capacity, threads);
    run := Fill(p, capacity, threads, 1);
    run := WakeToFlush(p, capacity, threads, run, 1, 1);
    run := LeakNow(p, s, run);
  }

  lemma LeakNow(p: nat, s: State, run: seq<Step>) returns (run': seq<Step>)
    requires Runs(s, run) && Looks(p, Exec(s, run), 1, 1, 1, Flushing(1))
    ensures Runs(s, run') && !NoBadReply(run')
    ensures Exec(s, run').leaked != [] && Exec(s, run').queue == [] && Exec(s, run').main.Asleep?
  {
    hide TakeRun, Runs, Exec, Inv;
    var e3 := TakeSteps(Exec(s, run));
    var e4 := DisposeSteps(e3, BadReply);
    ExecConcat(s, run, TakeRun());
    ExecConcat(s, run + TakeRun(), DisposeRun(BadReply));
    run' := run + TakeRun() + DisposeRun(BadReply);
    assert run'[|run'| - 1] == Handle(BadReply);
  }
}
